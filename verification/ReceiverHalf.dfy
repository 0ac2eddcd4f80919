/**
 The receiving half of CUDT (src/udt/src/core.cpp) on 31-bit numbers, with its loss list and its buffer.
 Each method is one atomic step of the connection; its contract says which step of the unbounded
 protocol it performs.
 */
module ReceiverHalf {
  import opened Common
  import opened SeqNo
  import opened StreamRing
  import opened Protocol
  import opened ProtocolSafety
  import opened LossReport
  import opened ReceiverLoss
  import opened ReceiverBuffer

  /** A full acknowledgement as sendCtrl fills it in: its own number, the data number, the free buffer size. */
  datatype WireAck = WireAck(ackNo: int, ack: int, avail: int)

  function AckOnWire(p: Option<Packet>): Option<WireAck> {
    match p
    case Some(FullAck(k, a, avail)) => Some(WireAck(Wrap(k), Wrap(a), avail))
    case _ => None
  }

  function LiteOnWire(p: Option<Packet>): Option<int> {
    match p
    case Some(LiteAck(a)) => Some(Wrap(a))
    case _ => None
  }

  /** The words of the loss report, if there is one. */
  function ReportWords(p: Option<Packet>): seq<int> {
    match p
    case Some(Nak(ranges)) => Encode(ranges)
    case _ => []
  }

  // ----- the ACK timer on 31-bit numbers -----

  /** The ACK timer as the comparisons on the circle decide it, however long ago an ACK was confirmed. */
  ghost function FullAckStep(r: Receiver, repeat: bool): (Receiver, Option<Packet>)
    requires r.Valid()
  {
    NextAckBounds(r);
    if Wrap(NextAck(r)) == Wrap(r.lastAckAck) || (NextAck(r) == r.lastAck && !repeat) then
      (r, None)
    else
      var r1 := Acked(r, NextAck(r));
      if SeqCmp(Wrap(r1.lastAck), Wrap(r1.lastAckAck)) > 0 then
        var k := r1.ackSeq + 1;
        (r1.(ackSeq := k, ackWindow := r1.ackWindow[k := r1.lastAck]),
         Some(FullAck(k, r1.lastAck, Max(r1.ring.Avail(), 2))))
      else
        (r1, None)
  }

  /** A lite ACK as the circle decides it. */
  ghost function LiteAckStep(r: Receiver): Option<Packet> {
    if Wrap(NextAck(r)) == Wrap(r.lastAckAck) then None else Some(LiteAck(NextAck(r)))
  }

  /** Nothing new is to be acknowledged, or the next ACK compares as newer than the last one confirmed. */
  ghost predicate Confirmable(r: Receiver, repeat: bool) {
    || NextAck(r) == r.lastAckAck || (NextAck(r) == r.lastAck && !repeat)
    || SeqCmp(Wrap(NextAck(r)), Wrap(r.lastAckAck)) > 0
  }

  /** The timer does what the protocol says if and only if the comparison comes out right. */
  lemma FullAckExact(r: Receiver, repeat: bool)
    requires r.Valid()
    ensures FullAckStep(r, repeat) == Protocol.SendFullAck(r, repeat) <==> Confirmable(r, repeat)
    ensures FullAckStep(r, repeat).1.Some? ==> FullAckStep(r, repeat) == Protocol.SendFullAck(r, repeat)
    ensures r.lastAck <= NextAck(r) && r.ring.dataSize + NextAck(r) - r.lastAck < |r.ring.slots|
    ensures FullAckStep(r, repeat).1.None? ==> FullAckStep(r, repeat).0 in {r, Acked(r, NextAck(r))}
  {
    hide SeqCmp, Wrap, NextAck;
    NextAckBounds(r);
    CmpSelf(Wrap(NextAck(r)));
  }

  /** It does as long as the last confirmed ACK is less than half the circle behind. */
  lemma NearIsConfirmable(r: Receiver, repeat: bool)
    requires r.Valid() && Near(NextAck(r), r.lastAckAck)
    ensures Confirmable(r, repeat)
  {
    hide SeqCmp, Wrap, NextAck;
    NextAckBounds(r);
    CmpExact(NextAck(r), r.lastAckAck);
  }

  /** Once it is farther behind than that, and less than a whole turn, no full ACK is sent any more. */
  lemma SilentWhenFar(r: Receiver, repeat: bool)
    requires r.Valid() && CIRCLE - SEQ_NO_TH < NextAck(r) - r.lastAckAck < CIRCLE
    ensures FullAckStep(r, repeat).1 == None
    ensures NextAck(FullAckStep(r, repeat).0) == NextAck(r) && FullAckStep(r, repeat).0.lastAckAck == r.lastAckAck
  {
    hide SeqCmp, Wrap;
    NextAckBounds(r);
    CmpFar(NextAck(r), r.lastAckAck);
  }

  /** A lite ACK is the protocol's unless the next number has come round to the last confirmed one. */
  lemma LiteAckExact(r: Receiver)
    ensures LiteAckStep(r) == Protocol.SendLiteAck(r) <==>
            (Wrap(NextAck(r)) == Wrap(r.lastAckAck) ==> NextAck(r) == r.lastAckAck)
  {
    hide NextAck, Wrap;
  }

  /** What compares as newer is newer, unless it is more than half the circle old. */
  lemma NewerOrNear(a: int, b: int)
    requires b - SEQ_NO_TH < a && SeqCmp(Wrap(a), Wrap(b)) > 0
    ensures a > b
  {
    hide Wrap, SeqCmp;
    if a <= b { CmpExact(a, b); }
  }

  lemma CmpSelf(s: int)
    ensures SeqCmp(s, s) == 0
  {
  }

  lemma CmpFar(a: int, b: int)
    requires CIRCLE - SEQ_NO_TH < a - b < CIRCLE
    ensures SeqCmp(Wrap(a), Wrap(b)) < 0
  {
    WrapDifference(b, a);
  }

  class UdtReceiver {
    const lossList: RcvLossList
    const buffer: RcvBuffer
    var rcvLastAck: int
    var rcvLastAckAck: int
    var rcvCurrSeqNo: int
    var ackSeqNo: int

    /** The unbounded state that this object stands for. */
    ghost var abs: Receiver

    ghost predicate Numbers()
      reads this
    {
      && rcvLastAck == Wrap(abs.lastAck)
      && rcvLastAckAck == Wrap(abs.lastAckAck)
      && rcvCurrSeqNo == Wrap(abs.curr)
      && ackSeqNo == Wrap(abs.ackSeq)
    }

    ghost predicate Lists(loss: set<int>)
      reads lossList, lossList.data1, lossList.data2, lossList.next, lossList.prior
    {
      lossList.Valid() && lossList.Lost() == loss
    }

    ghost predicate Holds(ring: Ring)
      reads buffer, buffer.units, set u | u in buffer.slots && u != null
    {
      buffer.Valid() && buffer.View() == ring
    }

    ghost predicate Valid()
      reads this, lossList, lossList.data1, lossList.data2, lossList.next, lossList.prior
      reads buffer, buffer.units, set u | u in buffer.slots && u != null
    {
      && Numbers()
      && abs.Valid() && |abs.ring.slots| - 3 < lossList.size < SEQ_NO_TH - 2
      && Lists(abs.loss)
      && Holds(abs.ring)
    }

    /** connect(): the first number is isn. */
    constructor (c: Config)
      requires c.Valid() && 1 <= c.isn <= MAX_SEQ_NO && c.rcvBufSize - 3 < c.flightFlagSize < SEQ_NO_TH - 2
      ensures Valid() && abs == InitialReceiver(c)
      ensures fresh(lossList) && fresh(lossList.data1) && fresh(lossList.data2) && fresh(lossList.next)
          && fresh(lossList.prior)
      ensures fresh(buffer) && fresh(buffer.units)
    {
      hide RcvLossList.Valid, RcvBuffer.Valid, Wrap;
      WrapSelf(c.isn);
      WrapSelf(c.isn - 1);
      WrapSelf(0);
      lossList := new RcvLossList(c.flightFlagSize);
      buffer := new RcvBuffer(c.rcvBufSize);
      rcvLastAck, rcvLastAckAck, rcvCurrSeqNo := c.isn, c.isn, c.isn - 1;
      ackSeqNo := 0;
      abs := InitialReceiver(c);
    }

    /** What the buffer says about the abstract ring. */
    lemma BufferIs()
      requires Valid()
      ensures abs.Valid() && buffer.Valid() && buffer.View() == abs.ring && buffer.size == |abs.ring.slots|
      ensures buffer.GetRcvDataSize() == abs.ring.dataSize && buffer.GetAvailBufSize() == abs.ring.Avail()
    {
    }

    // ----- data -----

    /** processData: stores the packet, and returns the words of the loss report it sends at once. */
    method ProcessData(unit: Unit, seqNo: int, ghost n: int) returns (report: seq<int>)
      requires Valid() && unit.flag == 0 && seqNo == Wrap(n) && Near(abs.lastAck, n)
      modifies this`rcvCurrSeqNo, this`abs, lossList, lossList.data1, lossList.data2, lossList.next, lossList.prior
      modifies buffer`maxPos, buffer`slots, buffer.units, unit`flag
      ensures Valid() && abs == Protocol.ProcessData(old(abs), n, unit.packet.payload).0
      ensures report == ReportWords(Protocol.ProcessData(old(abs), n, unit.packet.payload).1)
    {
      hide Numbers, Lists, Holds, Wrap, SeqOff, Protocol.ProcessData, AddData, Valid, Detected, GapReport, Encode;
      BufferIs();
      OffIs(n);
      ProcessDataCases(abs, n, unit.packet.payload);
      var offset := SeqOff(rcvLastAck, seqNo);
      if offset < 0 || offset >= buffer.GetAvailBufSize() {
        return [];
      }
      var ok := Store(unit, offset);
      if !ok {
        return [];
      }
      report := Arrive(seqNo, n);
    }

    lemma OffIs(n: int)
      requires Valid() && Near(abs.lastAck, n)
      ensures SeqOff(rcvLastAck, Wrap(n)) == n - abs.lastAck
    {
      OffExact(abs.lastAck, n);
    }

    method Store(unit: Unit, offset: nat) returns (ok: bool)
      requires Valid() && unit.flag == 0 && offset < abs.ring.Avail()
      modifies this`abs, buffer`maxPos, buffer`slots, buffer.units, unit`flag
      ensures Valid() && (abs, ok) == (old(abs).(ring := AddData(old(abs).ring, offset, unit.packet.payload).0),
          AddData(old(abs).ring, offset, unit.packet.payload).1)
      ensures abs.ring.Avail() == old(abs).ring.Avail()
    {
      hide Lists, RcvBuffer.Valid, RcvBuffer.View, RcvBuffer.MsgView, Wrap;
      BufferIs();
      ok := buffer.AddData(unit, offset);
      abs := abs.(ring := AddData(abs.ring, offset, unit.packet.payload).0);
    }

    /** Loss detection: the receiver after packet n, which lies in the window, has been stored. */
    method Arrive(seqNo: int, ghost n: int) returns (report: seq<int>)
      requires Valid() && seqNo == Wrap(n) && 0 <= n - abs.lastAck < abs.ring.Avail()
      modifies this`rcvCurrSeqNo, this`abs, lossList, lossList.data1, lossList.data2, lossList.next, lossList.prior
      ensures Valid() && abs == Detected(old(abs), n) && report == ReportWords(GapReport(old(abs), n))
    {
      hide Lists, Holds, Wrap, SeqCmp, IncSeq;
      report := DetectLoss(seqNo, n);
      CmpExact(n, abs.curr);
      if SeqCmp(seqNo, rcvCurrSeqNo) > 0 {
        rcvCurrSeqNo := seqNo;
      } else {
        Found(seqNo, n);
      }
      abs := Detected(abs, n);
    }

    /** The first half of Arrive: the numbers that n jumps over enter the loss list. */
    method DetectLoss(seqNo: int, ghost n: int) returns (report: seq<int>)
      requires Valid() && seqNo == Wrap(n) && 0 <= n - abs.lastAck < abs.ring.Avail()
      modifies lossList, lossList.data1, lossList.data2, lossList.next, lossList.prior
      ensures n > abs.curr + 1 ==> Lists(abs.loss + Span(abs.curr + 1, n - 1))
      ensures n <= abs.curr + 1 ==> Lists(abs.loss)
      ensures Holds(abs.ring)
      ensures report == ReportWords(GapReport(abs, n))
    {
      hide Lists, Holds, Wrap, SeqCmp, IncSeq, DecSeq, Encode, ImmediateReport, Span;
      IncExact(abs.curr);
      IncExact(n);
      CmpExact(n, abs.curr + 1);
      report := [];
      if SeqCmp(seqNo, IncSeq(rcvCurrSeqNo)) > 0 {
        Missed(IncSeq(rcvCurrSeqNo), DecSeq(seqNo), abs.curr + 1, n - 1);
        report := ImmediateReport(IncSeq(rcvCurrSeqNo), DecSeq(seqNo));
        ImmediateReportIs(Range(abs.curr + 1, n - 1));
      }
    }

    method Missed(first: int, last: int, ghost lo: int, ghost hi: int)
      requires Valid() && first == Wrap(lo) && last == Wrap(hi)
          && lo == abs.curr + 1 <= hi < abs.lastAck + abs.ring.Avail() - 1
      modifies lossList, lossList.data1, lossList.data2, lossList.next, lossList.prior
      ensures Lists(abs.loss + Span(lo, hi)) && Holds(abs.ring)
    {
      hide RcvLossList.Valid, RcvLossList.Lost, Holds, Wrap, Span;
      lossList.Insert(first, last, lo, hi);
    }

    /** A retransmission leaves the loss list. */
    method Found(seqNo: int, ghost n: int)
      requires Valid() && seqNo == Wrap(n) && abs.lastAck <= n <= abs.curr
      modifies lossList, lossList.data1, lossList.data2, lossList.next, lossList.prior
      ensures Lists(abs.loss - {n}) && Holds(abs.ring)
    {
      hide RcvLossList.Valid, RcvLossList.Lost, Holds, Wrap;
      var found := lossList.Remove(seqNo, n);
    }

    // ----- acknowledgements -----

    /** The number that the next ACK carries. */
    method AckNumber() returns (ack: int)
      requires Valid()
      ensures ack == Wrap(NextAck(abs))
    {
      hide RcvLossList.Valid, RcvLossList.Lost, Holds, Wrap, IncSeq;
      IncExact(abs.curr);
      var n := lossList.GetLossLength();
      if 0 == n {
        ack := IncSeq(rcvCurrSeqNo);
      } else {
        ack := lossList.GetFirstLostSeq();
      }
    }

    /** sendCtrl(2): a full ACK; `repeat` says that the last one is old enough to be sent again. */
    method SendFullAck(repeat: bool) returns (packet: Option<WireAck>)
      requires Valid() && Filled(abs)
      modifies this`rcvLastAck, this`ackSeqNo, this`abs, buffer`lastAckPos, buffer`maxPos
      ensures Valid() && abs == FullAckStep(old(abs), repeat).0
      ensures packet == AckOnWire(FullAckStep(old(abs), repeat).1)
    {
      hide Lists, Holds, Wrap, SeqCmp, SeqOff, NextAck;
      ghost var a := NextAck(abs);
      NextAckBounds(abs);
      var ack := AckNumber();
      CmpExact(a, abs.lastAck);
      WrapDifference(a, abs.lastAck);
      if ack == rcvLastAckAck {
        return None;
      }
      if SeqCmp(ack, rcvLastAck) > 0 {
        Acknowledge(ack, a);
      } else if ack == rcvLastAck {
        if !repeat {
          return None;
        }
      } else {
        return None;
      }
      packet := AckPacket();
    }

    /** New packets are acknowledged: the ACK position of the buffer moves up. */
    method Acknowledge(ack: int, ghost a: int)
      requires Valid() && ack == Wrap(a) && abs.lastAck < a == NextAck(abs) && Filled(abs)
      modifies this`rcvLastAck, this`abs, buffer`lastAckPos, buffer`maxPos
      ensures abs == old(abs).(lastAck := a, ring := AckData(old(abs).ring, a - old(abs).lastAck))
      ensures Valid()
    {
      hide Lists, RcvBuffer.Valid, Wrap, SeqOff;
      BufferIs();
      OffExact(abs.lastAck, a);
      NextAckBounds(abs);
      var acksize := SeqOff(rcvLastAck, ack);
      rcvLastAck := ack;
      buffer.AckData(acksize);
      abs := abs.(lastAck := a, ring := AckData(abs.ring, acksize));
    }

    /** The ACK packet, when it carries news for the sender. */
    method AckPacket() returns (packet: Option<WireAck>)
      requires Valid()
      modifies this`ackSeqNo, this`abs
      ensures Valid()
      ensures if SeqCmp(Wrap(old(abs).lastAck), Wrap(old(abs).lastAckAck)) > 0 then
                var k := old(abs).ackSeq + 1;
                && abs == old(abs).(ackSeq := k, ackWindow := old(abs).ackWindow[k := old(abs).lastAck])
                && packet == Some(WireAck(Wrap(k), Wrap(old(abs).lastAck), Max(old(abs).ring.Avail(), 2)))
              else
                abs == old(abs) && packet == None
    {
      hide Lists, Holds, Wrap, SeqCmp, IncSeq;
      BufferIs();
      IncExact(abs.ackSeq);
      if SeqCmp(rcvLastAck, rcvLastAckAck) > 0 {
        ackSeqNo := IncSeq(ackSeqNo);
        var avail := buffer.GetAvailBufSize();
        if avail < 2 {
          avail := 2;
        }
        abs := abs.(ackSeq := abs.ackSeq + 1, ackWindow := abs.ackWindow[abs.ackSeq + 1 := abs.lastAck]);
        return Some(WireAck(ackSeqNo, rcvLastAck, avail));
      }
      return None;
    }

    /** sendCtrl(2) of four bytes: a lite ACK. */
    method SendLiteAck() returns (packet: Option<int>)
      requires Valid()
      ensures packet == LiteOnWire(LiteAckStep(abs))
    {
      hide Lists, Holds, Wrap, NextAck;
      var ack := AckNumber();
      if ack == rcvLastAckAck {
        return None;
      }
      return Some(ack);
    }

    /**
     processCtrl, case 6: `ack` is what the window of sent ACKs stored under number k, if it still does. It counts
     when it compares as newer than the last confirmed ACK.
     */
    method ProcessAck2(ack: Option<int>, ghost k: nat)
      requires Valid()
      requires ack.Some? ==> k in abs.ackWindow && ack.value == Wrap(abs.ackWindow[k])
      requires ack.Some? ==> abs.lastAckAck - SEQ_NO_TH < abs.ackWindow[k] <= abs.lastAck
      modifies this`rcvLastAckAck, this`abs
      ensures Valid()
      ensures abs == if ack.Some? && SeqCmp(Wrap(old(abs).ackWindow[k]), Wrap(old(abs).lastAckAck)) > 0
                     then Protocol.ProcessAck2(old(abs), k) else old(abs)
    {
      hide Lists, Holds, Wrap, SeqCmp;
      if ack.Some? {
        if SeqCmp(ack.value, rcvLastAckAck) > 0 {
          NewerOrNear(abs.ackWindow[k], abs.lastAckAck);
          rcvLastAckAck := ack.value;
          abs := Protocol.ProcessAck2(abs, k);
        }
      }
    }

    /** sendCtrl(3) without arguments: the loss list, as far as it fits the packet. */
    method SendNak(words: array<int>) returns (len: int, ghost ranges: seq<Range>)
      requires Valid()
      requires words != lossList.data1 && words != lossList.data2 && words != lossList.next && words != lossList.prior
      modifies words
      ensures Valid() && 0 <= len <= words.Length && words[..len] == Encode(ranges)
      ensures Missing(abs, ranges)
      ensures len < words.Length - 1 ==> Covered(ranges) == abs.loss
    {
      hide RcvLossList.Valid, Holds, Encode, Numbers;
      RangesAre();
      ghost var rs := lossList.Ranges();
      ghost var m;
      ReportIsMissing(rs, abs.loss);
      len, m := lossList.GetLossArray(words, words.Length);
      ranges := rs[..m];
      assert m == |rs| ==> ranges == rs;
    }

    lemma RangesAre()
      requires Valid()
      ensures Covered(lossList.Ranges()) == abs.loss
      ensures forall i :: 0 <= i < |lossList.Ranges()| ==> lossList.Ranges()[i].lo <= lossList.Ranges()[i].hi
    {
      lossList.RangesCover();
    }

    /** recv() without the waiting. */
    method Recv(len: nat) returns (data: seq<byte>)
      requires Valid()
      modifies this`abs, buffer`startPos, buffer`notch, buffer`slots, buffer.units
      modifies (set u | u in buffer.slots && u != null)`flag
      ensures Valid() && (abs, data) == Protocol.Recv(old(abs), len)
    {
      hide Lists, Wrap, RcvBuffer.Valid;
      data := buffer.ReadBuffer(len);
      abs := Protocol.Recv(abs, len).0;
    }
  }

  /** No slot between the ACK position and the next acknowledgement is empty. */
  ghost predicate Filled(r: Receiver)
    requires r.Valid()
  {
    && NextAck(r) >= r.lastAck
    && r.ring.dataSize + NextAck(r) - r.lastAck < |r.ring.slots|
    && forall i :: r.ring.dataSize <= i < r.ring.dataSize + NextAck(r) - r.lastAck ==> r.ring.slots[i].Some?
  }

  lemma {:induction false} ReportIsMissing(rs: seq<Range>, loss: set<int>)
    requires Covered(rs) <= loss
    ensures forall i :: 0 <= i < |rs| ==> Span(rs[i].lo, rs[i].hi) <= loss
    decreases |rs|
  {
    hide Span;
    if rs != [] {
      var k, last := |rs| - 1, Span(rs[|rs| - 1].lo, rs[|rs| - 1].hi);
      assert Covered(rs) == Covered(rs[..k]) + last;
      forall x | x in Covered(rs[..k]) || x in last
        ensures x in loss
      {
        assert x in Covered(rs);
      }
      ReportIsMissing(rs[..k], loss);
      assert forall i :: 0 <= i < k ==> rs[i] == rs[..k][i];
    }
  }

  /** sendCtrl(3) with its two words: one missing number takes the second word alone, more take both. */
  function ImmediateReport(first: int, last: int): seq<int> {
    if first == last then [last] else [first + CIRCLE, last]
  }

  lemma ImmediateReportIs(r: Range)
    requires r.lo <= r.hi < r.lo + CIRCLE
    ensures ImmediateReport(Wrap(r.lo), Wrap(r.hi)) == Encode([r])
  {
    hide Wrap;
    WrapDifference(r.lo, r.hi);
    EncodeHead([r]);
  }
}
