/**
 Where the protocol and the endpoint classes meet: what the methods of UdtSender and UdtReceiver ask of
 their callers holds in every reachable world, for every packet that is less than half the circle of
 sequence numbers old.
 */
module Endpoints {
  import opened Common
  import opened SeqNo
  import opened Protocol
  import opened ProtocolSafety
  import opened LossReport
  import opened ReceiverHalf

  /** The packet is not so old that its numbers have come round again. */
  ghost predicate Recent(w: World, p: Packet) {
    match p
    case Data(n, _) => w.rcv.lastAck - SEQ_NO_TH < n
    case LiteAck(a) => w.snd.lastAck - SEQ_NO_TH < a
    case FullAck(_, a, _) => w.snd.lastAck - SEQ_NO_TH + w.snd.curr + 1 - w.snd.lastAck < a
    case Ack2(k) => k in w.rcv.ackWindow ==> w.rcv.lastAckAck - SEQ_NO_TH < w.rcv.ackWindow[k]
    case Nak(ranges) => forall i :: 0 <= i < |ranges| ==> w.snd.curr + 1 - SEQ_NO_TH < ranges[i].lo
  }

  ghost predicate Sized(c: Config) {
    c.Valid() && c.rcvBufSize - 3 < c.flightFlagSize && 2 * c.flightFlagSize < SEQ_NO_TH
  }

  /** The sender's loss list, twice the first window in size, has room for whatever may be sent. */
  lemma WindowFitsList(c: Config, w: World)
    requires Inv(c, w) && Sized(c)
    ensures w.snd.lastAck + w.snd.window <= w.snd.lastDataAck + 2 * c.InitialWindow()
    ensures w.snd.curr - w.snd.lastDataAck < 2 * c.InitialWindow() < SEQ_NO_TH
  {
  }

  /** An acknowledgement in flight is comparable with the sender's marks and does not run ahead of it. */
  lemma AcksComparable(c: Config, w: World, p: Packet, a: int)
    requires Inv(c, w) && Sized(c) && p in w.net && Recent(w, p)
    requires p == LiteAck(a) || (p.FullAck? && p.ack == a)
    ensures a <= w.snd.curr + 1 && Near(a, w.snd.lastAck)
    ensures p.FullAck? ==> Near(a, w.snd.curr + 1) && Near(a, w.snd.lastDataAck)
  {
    hide SenderInv, ReceiverInv, DeliveredInv, HistoryInv;
    assert PacketInv(c, w.snd, w.rcv, w.blocks, p);
    AckBelowCurr(c, w);
    WindowFitsList(c, w);
    assert p.FullAck? ==> w.rcv.ackWindow[p.ackNo] == a && a <= w.rcv.lastAck;
  }

  lemma AckBelowCurr(c: Config, w: World)
    requires Inv(c, w)
    ensures w.rcv.lastAck <= NextAck(w.rcv) <= w.rcv.curr + 1 <= w.snd.curr + 1
    ensures w.snd.lastDataAck <= w.snd.lastAck <= w.snd.curr + 1
  {
    NextAckBounds(w.rcv);
  }

  /** The ranges of a loss report in flight can be checked against what is outstanding. */
  lemma ReportComparable(c: Config, w: World, ranges: seq<Range>, i: nat)
    requires Inv(c, w) && Sized(c) && Nak(ranges) in w.net && Recent(w, Nak(ranges)) && i < |ranges|
    ensures var r := ranges[i];
            && r.lo <= r.hi <= w.snd.curr
            && Near(r.lo, w.snd.lastAck) && Near(r.hi, w.snd.lastAck)
            && Near(r.lo, w.snd.curr) && Near(r.hi, w.snd.curr) && Near(r.lo, r.hi)
  {
    hide SenderInv, ReceiverInv, DeliveredInv, HistoryInv;
    assert PacketInv(c, w.snd, w.rcv, w.blocks, Nak(ranges));
    AckBelowCurr(c, w);
    WindowFitsList(c, w);
  }

  /** A data packet in flight is comparable with the receiver's ACK position. */
  lemma DataComparable(c: Config, w: World, n: int, b: Block)
    requires Inv(c, w) && Sized(c) && Data(n, b) in w.net && Recent(w, Data(n, b))
    ensures Near(w.rcv.lastAck, n)
  {
    hide SenderInv, ReceiverInv, DeliveredInv, HistoryInv;
    assert PacketInv(c, w.snd, w.rcv, w.blocks, Data(n, b));
    AckBelowCurr(c, w);
    WindowFitsList(c, w);
  }

  /** Each ACK covers only filled slots. */
  lemma AckCoversFilled(c: Config, w: World)
    requires Inv(c, w)
    ensures Filled(w.rcv)
  {
    hide SenderInv, DeliveredInv, HistoryInv, CrossInv, NetInv;
    NextAckBounds(w.rcv);
    forall i | w.rcv.ring.dataSize <= i < w.rcv.ring.dataSize + NextAck(w.rcv) - w.rcv.lastAck
      ensures w.rcv.ring.slots[i].Some?
    {
      assert SlotInv(c, w.rcv, w.blocks, i);
    }
  }

  // ----- the loss report, end to end -----

  /**
   A report whose ranges are in order and were sent marks exactly the reported numbers that are not
   acknowledged yet.
   */
  lemma {:induction false} ReportMarks(s: Sender, ranges: seq<Range>, x: int)
    requires forall i :: 0 <= i < |ranges| ==> ranges[i].lo <= ranges[i].hi <= s.curr
    ensures !ProcessNak(s, ranges).broken || s.broken
    ensures x in ProcessNak(s, ranges).loss <==> x in s.loss || (x >= s.lastAck && x in Covered(ranges))
    decreases |ranges|
  {
    if ranges != [] {
      var s1 := ProcessRange(s, ranges[0]).0;
      ReportMarks(s1, ranges[1..], x);
      CoveredHead(ranges, x);
    }
  }

  lemma {:induction false} CoveredHead(rs: seq<Range>, x: int)
    requires rs != []
    ensures x in Covered(rs) <==> x in Span(rs[0].lo, rs[0].hi) || x in Covered(rs[1..])
    decreases |rs|
  {
    hide Span;
    var k := |rs| - 1;
    if k > 0 {
      CoveredHead(rs[..k], x);
      assert rs[..k][1..] == rs[1..][..k - 1];
    }
  }

  /** What a receiver's report marks at the sender is missing at the receiver, if the report is fresh. */
  lemma FreshReportMarksMissing(c: Config, w: World, ranges: seq<Range>, x: int)
    requires Inv(c, w) && Missing(w.rcv, ranges)
    ensures WellFormed(c, Step(c, w, NakTimer(ranges)))
    ensures var s' := Step(c, Step(c, w, NakTimer(ranges)), Deliver(Nak(ranges), false)).snd;
            && !s'.broken
            && (x in s'.loss <==> x in w.snd.loss || (x >= w.snd.lastAck && x in Covered(ranges)))
            && (x in s'.loss && x !in w.snd.loss ==> x in w.rcv.loss)
            && (Covered(ranges) == w.rcv.loss && x in w.rcv.loss && x >= w.snd.lastAck ==> x in s'.loss)
  {
    hide ReceiverInv, DeliveredInv, HistoryInv, NetInv, ProcessNak, Covered;
    InvWellFormed(c, w);
    assert forall n :: n in w.rcv.loss ==> n <= w.snd.curr;
    forall i | 0 <= i < |ranges|
      ensures ranges[i].lo <= ranges[i].hi <= w.snd.curr
    {
      assert ranges[i].hi in Span(ranges[i].lo, ranges[i].hi);
    }
    ReportMarks(w.snd, ranges, x);
    CoveredMissing(ranges, w.rcv.loss);
  }

  lemma {:induction false} CoveredMissing(rs: seq<Range>, loss: set<int>)
    requires forall i :: 0 <= i < |rs| ==> Span(rs[i].lo, rs[i].hi) <= loss
    ensures Covered(rs) <= loss
    decreases |rs|
  {
    if rs != [] {
      CoveredMissing(rs[..|rs| - 1], loss);
    }
  }
}
