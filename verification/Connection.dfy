/**
 The two endpoint objects together with the packets in flight. Every method is one event of a connection,
 carried out by the objects on 31-bit numbers; its contract says that this is the protocol's step, or the step on
 the circle where acknowledgements are compared, so the theorems about all runs on the circle are theorems about
 these objects.
 */
module Connection {
  import opened Common
  import opened SeqNo
  import opened Messages
  import opened StreamRing
  import opened Protocol
  import opened ProtocolSafety
  import opened ProtocolRuns
  import opened LossReport
  import opened SenderBuffer
  import opened SenderLoss
  import opened ReceiverLoss
  import opened ReceiverBuffer
  import opened SenderHalf
  import opened ReceiverHalf
  import opened Endpoints
  import opened CircleRuns
  import opened ProtocolLaws

  class UdtConnection {
    const c: Config
    const snd: UdtSender
    const rcv: UdtReceiver

    ghost var world: World

    /** The two ends share no memory. */
    ghost predicate Apart() {
      && {snd.lossList.data1, snd.lossList.data2, snd.lossList.next} !!
         {rcv.lossList.data1, rcv.lossList.data2, rcv.lossList.next, rcv.lossList.prior}
    }

    ghost predicate Settings() {
      && Apart()
      && snd.buffer.mss == c.mss && snd.sndBufSize == c.sndBufSize && snd.lossList.size == 2 * c.InitialWindow()
    }

    ghost predicate Valid()
      reads this, snd, snd.lossList, snd.lossList.data1, snd.lossList.data2, snd.lossList.next
      reads snd.buffer, snd.buffer.ring
      reads rcv, rcv.lossList, rcv.lossList.data1, rcv.lossList.data2, rcv.lossList.next, rcv.lossList.prior
      reads rcv.buffer, rcv.buffer.units, set u | u in rcv.buffer.slots && u != null
    {
      && Settings()
      && snd.Valid() && snd.abs == world.snd
      && rcv.Valid() && rcv.abs == world.rcv
      && CircleInv(c, world)
    }

    constructor (c: Config)
      requires Sized(c) && 1 <= c.isn <= MAX_SEQ_NO
      ensures Valid() && world == Initial(c)
      ensures world.snd.lastAck == c.isn && world.snd.curr == c.isn - 1 && world.snd.loss == {} && world.snd.buf == []
      ensures world.rcv.lastAck == c.isn && world.rcv.curr == c.isn - 1 && world.rcv.loss == {}
      ensures world.snd.window == if c.rcvBufSize < c.flightFlagSize then c.rcvBufSize else c.flightFlagSize
    {
      hide UdtSender.Valid, UdtReceiver.Valid, Inv, WithinTurn;
      InitialCircleInv(c);
      StartsEmpty(c);
      this.c := c;
      snd := new UdtSender(c);
      rcv := new UdtReceiver(c);
      world := Initial(c);
    }

    /** The bytes that the calls of recv() returned are a prefix of those that the calls of send() took. */
    lemma DeliveredIsPrefix()
      requires Valid()
      ensures world.delivered <= world.accepted
    {
      hide UdtSender.Valid, UdtReceiver.Valid;
      PrefixDelivered(c, world);
    }

    /** send(). */
    method Send(data: seq<byte>) returns (size: nat)
      requires Valid()
      modifies this, snd`abs, snd.buffer, snd.buffer.ring
      ensures Valid() && WellFormed(c, old(world)) && world == Step(c, old(world), AppSend(data))
      ensures size <= |data| && world.accepted == old(world).accepted + data[..size]
      ensures size < |data| ==> |world.snd.buf| >= c.sndBufSize
    {
      hide UdtSender.Valid, UdtReceiver.Valid, Inv, WithinTurn;
      InvWellFormed(c, world);
      SendFillsBuffer(c, world.snd, data);
      CircleStepKeeps(c, world, AppSend(data));
      SendAppends(c, world.snd, data);
      size := snd.Send(c, data);
      world := Step(c, world, AppSend(data));
    }

    /** recv(). */
    method Recv(len: nat) returns (data: seq<byte>)
      requires Valid()
      modifies this, rcv`abs, rcv.buffer, rcv.buffer.units, (set u | u in rcv.buffer.slots && u != null)`flag
      ensures Valid() && WellFormed(c, old(world)) && world == Step(c, old(world), AppRecv(len))
      ensures world.delivered == old(world).delivered + data
      ensures |data| <= len && (|data| < len ==> world.rcv.ring.dataSize == 0)
    {
      hide UdtSender.Valid, UdtReceiver.Valid, Inv, WithinTurn;
      InvWellFormed(c, world);
      RecvEmptiesBuffer(world.rcv, len);
      CircleStepKeeps(c, world, AppRecv(len));
      data := rcv.Recv(len);
      world := Step(c, world, AppRecv(len));
    }

    /** packData() on a send event. */
    method Pack(cong: int) returns (packet: Option<WireData>)
      requires Valid()
      modifies this, snd, snd.lossList, snd.lossList.data1, snd.lossList.data2, snd.lossList.next
      modifies snd.buffer`currBlock, snd.buffer`sent
      ensures Valid() && WellFormed(c, old(world)) && world == Step(c, old(world), Event.Pack(cong))
      ensures packet == OnWire(Protocol.PackData(old(world).snd, cong).1)
      ensures world.snd.curr > old(world).snd.curr ==>
                world.snd.curr + 1 - world.snd.lastAck <= cong
                && world.snd.curr + 1 - world.snd.lastAck <= world.snd.window
      ensures var s := old(world).snd;
              s.loss == {} ==>
                && (packet.Some? <==>
                      s.curr + 1 - s.lastDataAck < |s.buf| && s.curr + 2 - s.lastAck <= Min(cong, s.window))
                && (packet.Some? ==>
                      && packet.value == WireData(Wrap(s.curr + 1), s.buf[s.curr + 1 - s.lastDataAck])
                      && world.snd.curr == s.curr + 1)
      ensures var s := old(world).snd;
              s.loss != {} ==> exists n ::
                && n in s.loss && (forall m :: m in s.loss ==> n <= m) && world.snd.loss == s.loss - {n}
                && packet == Some(WireData(Wrap(n), s.buf[n - s.lastDataAck]))
    {
      hide UdtSender.Valid, UdtReceiver.Valid, Inv, WithinTurn, PackData;
      PackLaws(c, world, cong);
      InvWellFormed(c, world);
      WindowFitsList(c, world);
      CircleStepKeeps(c, world, Event.Pack(cong));
      packet := snd.PackData(cong);
      world := Step(c, world, Event.Pack(cong));
    }

    /** The EXP timer. */
    method Expire()
      requires Valid()
      modifies this, snd`abs, snd.lossList, snd.lossList.data1, snd.lossList.data2, snd.lossList.next
      ensures Valid() && WellFormed(c, old(world)) && world == Step(c, old(world), Exp)
      ensures forall n :: n in world.snd.loss <==>
                n in old(world).snd.loss
                || (old(world).snd.loss == {} && old(world).snd.buf != []
                    && old(world).snd.lastAck <= n <= old(world).snd.curr)
      ensures old(world).snd.loss != {} ==> world == old(world)
    {
      hide UdtSender.Valid, UdtReceiver.Valid, Inv, WithinTurn, Protocol.Expire;
      forall n { ExpireMarks(world.snd, n); }
      InvWellFormed(c, world);
      CircleStepKeeps(c, world, Exp);
      snd.Expire();
      world := Step(c, world, Exp);
    }

    // ----- what the receiver sends -----

    /** The ACK timer. */
    method SendFullAck(repeat: bool) returns (packet: Option<WireAck>)
      requires Valid()
      modifies this, rcv`rcvLastAck, rcv`ackSeqNo, rcv`abs, rcv.buffer`lastAckPos, rcv.buffer`maxPos
      ensures Valid() && WellFormed(c, old(world)) && world == CircleStep(c, old(world), AckTimer(repeat))
      ensures packet == AckOnWire(FullAckStep(old(world).rcv, repeat).1)
      ensures forall a :: FirstMissing(old(world).rcv, a) ==> TimerAcks(old(world).rcv, a, repeat, world.rcv, packet)
    {
      hide UdtSender.Valid, UdtReceiver.Valid, Inv, WithinTurn, Filled, NextAck, FullAckStep, FirstMissing;
      forall a | FirstMissing(world.rcv, a)
        ensures world.rcv.Valid()
            && TimerAcks(world.rcv, a, repeat, FullAckStep(world.rcv, repeat).0,
                         AckOnWire(FullAckStep(world.rcv, repeat).1))
      {
        InvWellFormed(c, world);
        FullAckCarries(world.rcv, a, repeat);
      }
      InvWellFormed(c, world);
      AckCoversFilled(c, world);
      CircleStepKeeps(c, world, AckTimer(repeat));
      packet := rcv.SendFullAck(repeat);
      world := CircleStep(c, world, AckTimer(repeat));
    }

    /** A lite ACK after every 64 packets. */
    method SendLiteAck() returns (packet: Option<int>)
      requires Valid()
      modifies this
      ensures Valid() && WellFormed(c, old(world)) && world == CircleStep(c, old(world), LiteAckTimer)
      ensures packet == LiteOnWire(LiteAckStep(old(world).rcv))
      ensures forall a :: FirstMissing(old(world).rcv, a) ==>
                && packet == (if Wrap(a) == Wrap(old(world).rcv.lastAckAck) then None else Some(Wrap(a)))
                && (packet.Some? ==> LiteAck(a) in world.net)
    {
      hide UdtSender.Valid, UdtReceiver.Valid, Inv, WithinTurn, NextAck, LiteAckStep, FirstMissing;
      InvWellFormed(c, world);
      forall a | FirstMissing(world.rcv, a)
        ensures LiteAckStep(world.rcv) == if Wrap(a) == Wrap(world.rcv.lastAckAck) then None else Some(LiteAck(a))
      {
        LiteAckCarries(world.rcv, a);
      }
      CircleStepKeeps(c, world, LiteAckTimer);
      packet := rcv.SendLiteAck();
      world := CircleStep(c, world, LiteAckTimer);
    }

    /** The NAK timer: the words of a report that fits a packet of `size` words. */
    method SendNak(size: nat) returns (words: seq<int>, ghost ranges: seq<Range>)
      requires Valid()
      modifies this
      ensures Valid() && WellFormed(c, old(world)) && world == Step(c, old(world), NakTimer(ranges))
      ensures words == Encode(ranges) && |words| <= size && Missing(old(world).rcv, ranges)
      ensures |words| < size - 1 ==> Covered(ranges) == old(world).rcv.loss
      ensures world == old(world).(net := old(world).net + {Nak(ranges)})
    {
      hide UdtSender.Valid, UdtReceiver.Valid, Inv, WithinTurn, Encode, Covered, Missing;
      InvWellFormed(c, world);
      var payload := new int[size];
      var len;
      len, ranges := rcv.SendNak(payload);
      words := payload[..len];
      CircleStepKeeps(c, world, NakTimer(ranges));
      world := Step(c, world, NakTimer(ranges));
    }

    // ----- packets that arrive; the ghost parameters name the packet in flight -----

    /** A data packet: processData() on a free unit. */
    method DeliverData(seqNo: int, packet: DataPacket, ghost n: int)
      returns (report: seq<int>, ghost ranges: seq<Range>)
      requires Valid() && Data(n, packet.payload) in world.net && Recent(world, Data(n, packet.payload))
          && seqNo == Wrap(n)
      modifies this, rcv`rcvCurrSeqNo, rcv`abs
      modifies rcv.lossList, rcv.lossList.data1, rcv.lossList.data2, rcv.lossList.next, rcv.lossList.prior
      modifies rcv.buffer`maxPos, rcv.buffer`slots, rcv.buffer.units
      ensures Valid() && WellFormed(c, old(world))
          && world == Step(c, old(world), Deliver(Data(n, packet.payload), false))
      ensures Decode(report) == Some(WrapRanges(ranges)) && Covered(ranges) == world.rcv.loss - old(world).rcv.loss
      ensures report == [] <==> world.rcv.loss <= old(world).rcv.loss
      ensures report != [] ==> Nak(ranges) in world.net
    {
      hide UdtSender.Valid, UdtReceiver.Valid, Inv, WithinTurn, ProcessData, ReceiverHalf.ReportWords;
      hide Encode, Decode, Covered;
      InvWellFormed(c, world);
      ranges := ReportReads(world.rcv, n, packet.payload);
      DataComparable(c, world, n, packet.payload);
      CircleStepKeeps(c, world, Deliver(Data(n, packet.payload), false));
      var unit := new Unit(packet);
      report := rcv.ProcessData(unit, seqNo, n);
      world := Step(c, world, Deliver(Data(n, packet.payload), false));
    }

    /** A lite ACK. */
    method DeliverLiteAck(ack: int, ghost a: int)
      requires Valid() && LiteAck(a) in world.net && Recent(world, LiteAck(a)) && ack == Wrap(a)
      modifies this, snd`sndLastAck, snd`flowWindowSize, snd`abs
      ensures Valid() && WellFormed(c, old(world)) && world == Step(c, old(world), Deliver(LiteAck(a), false))
    {
      hide UdtSender.Valid, UdtReceiver.Valid, Inv, WithinTurn;
      InvWellFormed(c, world);
      AcksComparable(c, world, LiteAck(a), a);
      CircleStepKeeps(c, world, Deliver(LiteAck(a), false));
      snd.ProcessLiteAck(ack, a);
      world := Step(c, world, Deliver(LiteAck(a), false));
    }

    /** A full ACK; `confirm` says whether an ACK2 answers it. */
    method DeliverFullAck(ack: int, avail: int, confirm: bool, ghost k: nat, ghost a: int)
      requires Valid() && FullAck(k, a, avail) in world.net && Recent(world, FullAck(k, a, avail)) && ack == Wrap(a)
      modifies this, snd, snd.lossList, snd.lossList.data1, snd.lossList.data2, snd.lossList.next, snd.buffer
      ensures Valid() && WellFormed(c, old(world))
          && world == Step(c, old(world), Deliver(FullAck(k, a, avail), confirm))
      ensures confirm ==> Ack2(k) in world.net
    {
      hide UdtSender.Valid, UdtReceiver.Valid, Inv, WithinTurn, ProcessFullAck;
      InvWellFormed(c, world);
      AcksComparable(c, world, FullAck(k, a, avail), a);
      CircleStepKeeps(c, world, Deliver(FullAck(k, a, avail), confirm));
      snd.ProcessFullAck(ack, avail, a);
      world := Step(c, world, Deliver(FullAck(k, a, avail), confirm));
    }

    /** An ACK2; `ack` is what the window of sent ACKs stored under its number, if it still does. */
    method DeliverAck2(ack: Option<int>, ghost k: nat)
      requires Valid() && Ack2(k) in world.net && Recent(world, Ack2(k))
      requires ack.Some? ==> k in world.rcv.ackWindow && ack.value == Wrap(world.rcv.ackWindow[k])
      modifies this, rcv`rcvLastAckAck, rcv`abs
      ensures Valid() && WellFormed(c, old(world)) && world == CircleStep(c, old(world), Deliver(Ack2(k), ack.Some?))
      ensures var r := old(world).rcv;
              world.rcv.lastAckAck ==
              if ack.Some? && SeqCmp(ack.value, Wrap(r.lastAckAck)) > 0 then r.ackWindow[k]
              else r.lastAckAck
    {
      hide UdtSender.Valid, UdtReceiver.Valid, Inv, WithinTurn, Wrap, SeqCmp;
      InvWellFormed(c, world);
      if ack.Some? {
        ConfirmationsSent(c, world, k);
        if Newer(world.rcv, world.rcv.ackWindow[k]) { NewerOrNear(world.rcv.ackWindow[k], world.rcv.lastAckAck); }
      }
      CircleStepKeeps(c, world, Deliver(Ack2(k), ack.Some?));
      rcv.ProcessAck2(ack, k);
      world := CircleStep(c, world, Deliver(Ack2(k), ack.Some?));
    }

    /** A loss report. */
    method DeliverNak(words: seq<int>, ghost ranges: seq<Range>)
      requires Valid() && Nak(ranges) in world.net && Recent(world, Nak(ranges)) && words == Encode(ranges)
      modifies this, snd`abs, snd`broken, snd.lossList, snd.lossList.data1, snd.lossList.data2, snd.lossList.next
      ensures Valid() && WellFormed(c, old(world)) && world == Step(c, old(world), Deliver(Nak(ranges), false))
    {
      hide UdtSender.Valid, UdtReceiver.Valid, Inv, WithinTurn, ProcessNak, Encode;
      InvWellFormed(c, world);
      forall i | 0 <= i < |ranges|
        ensures snd.Reportable(ranges[i])
      {
        ReportComparable(c, world, ranges, i);
      }
      CircleStepKeeps(c, world, Deliver(Nak(ranges), false));
      snd.ProcessNak(words, ranges);
      world := Step(c, world, Deliver(Nak(ranges), false));
    }

    /** The network loses a packet. */
    ghost method LosePacket(p: Packet)
      requires Valid()
      modifies this
      ensures Valid() && WellFormed(c, old(world)) && world == Step(c, old(world), Lose(p))
    {
      hide UdtSender.Valid, UdtReceiver.Valid, Inv, WithinTurn;
      InvWellFormed(c, world);
      CircleStepKeeps(c, world, Lose(p));
      world := Step(c, world, Lose(p));
    }
  }

  /** What the ACK timer does when a is the first missing number. */
  ghost predicate TimerAcks(r: Receiver, a: int, repeat: bool, r': Receiver, packet: Option<WireAck>) {
    var same := Wrap(a) == Wrap(r.lastAckAck);
    var sent := !same && (a > r.lastAck || repeat) && SeqCmp(Wrap(a), Wrap(r.lastAckAck)) > 0;
    && r'.lastAck == (if same then r.lastAck else a)
    && r'.ring.dataSize == r.ring.dataSize + r'.lastAck - r.lastAck
    && packet == if sent then
                   Some(WireAck(Wrap(r.ackSeq + 1), Wrap(a), Max(|r.ring.slots| - 1 - r'.ring.dataSize, 2)))
                 else None
  }

  lemma PackLaws(c: Config, w: World, cong: int)
    requires Inv(c, w)
    ensures w.snd.Valid()
    ensures var (s, (s', p)) := (w.snd, PackData(w.snd, cong));
            && (s'.curr > s.curr ==>
                  s'.curr + 1 - s'.lastAck <= cong && s'.curr + 1 - s'.lastAck <= s'.window)
            && (s.loss == {} ==>
                  && (p.Some? <==>
                        s.curr + 1 - s.lastDataAck < |s.buf| && s.curr + 2 - s.lastAck <= Min(cong, s.window))
                  && (p.Some? ==> p.value == Data(s.curr + 1, s.buf[s.curr + 1 - s.lastDataAck])
                                  && s'.curr == s.curr + 1))
            && (s.loss != {} ==>
                  && p.Some? && p.value.Data? && p.value.seqNo in s.loss
                  && (forall m :: m in s.loss ==> p.value.seqNo <= m)
                  && p.value.payload == s.buf[p.value.seqNo - s.lastDataAck]
                  && s'.loss == s.loss - {p.value.seqNo})
  {
    hide Inv, PackData;
    InvWellFormed(c, w);
    if w.snd.loss == {} {
      PackObeysWindows(w.snd, cong);
    } else {
      PackResendsFirst(w.snd, cong);
    }
    PackWithinWindows(w.snd, cong);
  }

  /** The words that an arrival returns, read back, are the numbers that it leaves newly missing. */
  lemma ReportReads(r: Receiver, n: int, b: Block) returns (ranges: seq<Range>)
    requires r.Valid()
    ensures var (r', p) := ProcessData(r, n, b);
            && Decode(ReceiverHalf.ReportWords(p)) == Some(WrapRanges(ranges)) && Covered(ranges) == r'.loss - r.loss
            && (ReceiverHalf.ReportWords(p) == [] <==> r'.loss <= r.loss) && (p.Some? ==> p == Some(Nak(ranges)))
            && (p.None? ==> ReceiverHalf.ReportWords(p) == [])
  {
    hide ProcessData, Decode, Receiver.Valid;
    GapIsReported(r, n, b);
    var (r', p) := ProcessData(r, n, b);
    ranges := if p.Some? then p.value.ranges else [];
    DecodeEncode(ranges);
    if ranges != [] { EncodeHead(ranges); }
    NothingAdded(r'.loss, r.loss);
  }

  lemma NothingAdded(s': set<int>, s: set<int>)
    ensures s' - s == {} <==> s' <= s
  {
    assert s' <= s + (s' - s);
  }

  /** An ACK that is confirmed was sent. */
  lemma ConfirmationsSent(c: Config, w: World, k: nat)
    requires Inv(c, w) && k in w.rcv.ackWindow
    ensures w.rcv.ackWindow[k] <= w.rcv.lastAck
  {
    hide SenderInv, DeliveredInv, HistoryInv, NetInv;
  }
}
