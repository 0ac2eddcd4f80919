/**
 The sending half of CUDT (src/udt/src/core.cpp) on 31-bit numbers, with its loss list and its buffer.
 Each method is one atomic step of the connection; its contract says which step of the unbounded
 protocol it performs.
 */
module SenderHalf {
  import opened Common
  import opened SeqNo
  import opened Protocol
  import opened LossReport
  import opened SenderLoss
  import opened SenderBuffer

  /** A data packet as packData fills it in. */
  datatype WireData = WireData(seqNo: int, payload: Block)

  function OnWire(p: Option<Packet>): Option<WireData> {
    match p
    case Some(Data(n, b)) => Some(WireData(Wrap(n), b))
    case _ => None
  }

  class UdtSender {
    const sndBufSize: nat
    const lossList: SndLossList
    const buffer: SndBuffer
    var sndLastAck: int
    var sndLastDataAck: int
    var sndCurrSeqNo: int
    var flowWindowSize: int
    var broken: bool

    /** The unbounded state that this object stands for. */
    ghost var abs: Sender

    ghost predicate Valid()
      reads this, lossList, lossList.data1, lossList.data2, lossList.next, buffer, buffer.ring
    {
      ValidBut(abs.loss)
    }

    /** The loss list holds another set than the one in abs. */
    ghost predicate ValidBut(loss: set<int>)
      reads this, lossList, lossList.data1, lossList.data2, lossList.next, buffer, buffer.ring
    {
      && Numbers()
      && abs.Valid()
      && abs.curr - abs.lastDataAck < lossList.size
      && lossList.Valid() && lossList.Lost() == loss
      && buffer.Valid() && buffer.waiting == abs.buf && buffer.sent == abs.currOff
    }

    ghost predicate Numbers()
      reads this
    {
      && sndLastAck == Wrap(abs.lastAck)
      && sndLastDataAck == Wrap(abs.lastDataAck)
      && sndCurrSeqNo == Wrap(abs.curr)
      && flowWindowSize == abs.window
      && broken == abs.broken
    }

    /** What may still be sent fits the loss list. */
    ghost predicate WindowFits()
      reads this
    {
      abs.lastAck + abs.window <= abs.lastDataAck + lossList.size
    }

    /** connect(): the first number is isn, the window is the one from the handshake. */
    constructor (c: Config)
      requires c.Valid() && 1 <= c.isn <= MAX_SEQ_NO && 2 * c.InitialWindow() < SEQ_NO_TH
      ensures Valid() && abs == InitialSender(c) && buffer.mss == c.mss && sndBufSize == c.sndBufSize
      ensures lossList.size == 2 * c.InitialWindow()
      ensures fresh(lossList) && fresh(lossList.data1) && fresh(lossList.data2) && fresh(lossList.next)
      ensures fresh(buffer) && fresh(buffer.ring)
    {
      hide SndLossList.Valid, SndBuffer.Valid, Wrap;
      WrapSelf(c.isn);
      WrapSelf(c.isn - 1);
      sndBufSize := c.sndBufSize;
      lossList := new SndLossList(2 * c.InitialWindow());
      buffer := new SndBuffer(32, c.mss);
      sndLastAck, sndLastDataAck, sndCurrSeqNo := c.isn, c.isn, c.isn - 1;
      flowWindowSize := c.InitialWindow();
      broken := false;
      abs := InitialSender(c);
    }

    /** send() without the waiting. */
    method Send(ghost c: Config, data: seq<byte>) returns (size: nat)
      requires Valid() && c.mss == buffer.mss && c.sndBufSize == sndBufSize
      modifies this`abs, buffer, buffer.ring
      ensures Valid() && (abs, size) == Protocol.Send(c, old(abs), data)
      ensures forall i :: 0 <= i < |buffer.ring| ==> buffer.ring[i] in old(buffer.ring) || fresh(buffer.ring[i])
    {
      hide SndLossList.Valid, SndLossList.Lost, SndBuffer.Valid, Wrap, Chunks, Numbers, ValidBut;
      CountIs();
      if data == [] || sndBufSize <= buffer.count {
        return 0;
      }
      size := (sndBufSize - buffer.count) * buffer.mss;
      if size > |data| {
        size := |data|;
      }
      Append(data[..size]);
    }

    /** The bytes wait in the sending buffer. */
    method Append(data: seq<byte>)
      requires Valid()
      modifies this`abs, buffer, buffer.ring
      ensures Valid() && abs == old(abs).(buf := old(abs).buf + Chunks(data, buffer.mss))
      ensures forall i :: 0 <= i < |buffer.ring| ==> buffer.ring[i] in old(buffer.ring) || fresh(buffer.ring[i])
    {
      hide SndLossList.Valid, SndLossList.Lost, SndBuffer.Valid, Wrap, Chunks;
      CountIs();
      ChunksFlatten(data, buffer.mss);
      buffer.AddBuffer(data, false);
      abs := abs.(buf := abs.buf + Chunks(data, buffer.mss));
    }

    /** packData: a retransmission from the loss list, else a new packet if the window is open. */
    method PackData(cong: int) returns (packet: Option<WireData>)
      requires Valid() && WindowFits()
      modifies this, lossList, lossList.data1, lossList.data2, lossList.next, buffer`currBlock, buffer`sent
      ensures Valid() && abs == Protocol.PackData(old(abs), cong).0
      ensures packet == OnWire(Protocol.PackData(old(abs), cong).1)
    {
      hide SndLossList.Valid, SndLossList.Lost, SndBuffer.Valid, Wrap, Numbers;
      ghost var n := if abs.loss == {} then 0 else Least(abs.loss);
      var seqNo := lossList.GetLostSeq();
      if seqNo >= 0 {
        SetLoss(abs.loss - {n});
        packet := Resend(seqNo, n);
      } else {
        packet := PackNew(cong);
      }
    }

    /** The abstract state follows the loss list. */
    ghost method SetLoss(loss: set<int>)
      requires ValidBut(loss) && forall n :: n in loss ==> abs.lastDataAck <= n <= abs.curr
      modifies this`abs
      ensures Valid() && abs == old(abs).(loss := loss)
    {
      hide SndLossList.Valid, SndLossList.Lost, SndBuffer.Valid, Wrap;
      abs := abs.(loss := loss);
    }

    /** The payload of a number taken from the loss list. */
    method Resend(seqNo: int, ghost n: int) returns (packet: Option<WireData>)
      requires Valid() && seqNo == Wrap(n) && abs.lastDataAck <= n <= abs.curr
      ensures packet == Some(WireData(seqNo, abs.buf[n - abs.lastDataAck]))
    {
      hide SndLossList.Valid, SndBuffer.Valid, Wrap, SeqOff;
      CountIs();
      OffExact(abs.lastDataAck, n);
      var offset := SeqOff(sndLastDataAck, seqNo);
      if offset < 0 {
        return None;
      }
      var payload := buffer.ReadDataAt(offset);
      if payload == [] {
        return None;
      }
      return Some(WireData(seqNo, payload));
    }

    /** The second half of packData: nothing is lost. */
    method PackNew(cong: int) returns (packet: Option<WireData>)
      requires Valid() && abs.loss == {} && WindowFits()
      modifies this`sndCurrSeqNo, this`abs, buffer`currBlock, buffer`sent
      ensures Valid() && abs == Protocol.PackData(old(abs), cong).0
      ensures packet == OnWire(Protocol.PackData(old(abs), cong).1)
    {
      hide SndLossList.Valid, SndBuffer.Valid, Wrap, SeqLen, IncSeq;
      CountIs();
      LenExact(abs.lastAck, abs.curr + 1);
      IncExact(abs.curr);
      var cwnd := if flowWindowSize < cong then flowWindowSize else cong;
      if cwnd >= SeqLen(sndLastAck, IncSeq(sndCurrSeqNo)) {
        var data := buffer.ReadData();
        if data.Some? {
          sndCurrSeqNo := IncSeq(sndCurrSeqNo);
          abs := abs.(curr := abs.curr + 1, currOff := abs.currOff + 1);
          return Some(WireData(sndCurrSeqNo, data.value));
        }
      }
      return None;
    }

    // ----- acknowledgements -----

    /** processCtrl, case 2, four bytes: a lite ACK. */
    method ProcessLiteAck(ack: int, ghost a: int)
      requires Valid() && ack == Wrap(a) && Near(a, abs.lastAck) && a <= abs.curr + 1
      modifies this`sndLastAck, this`flowWindowSize, this`abs
      ensures Valid() && abs == Protocol.ProcessLiteAck(old(abs), a)
    {
      hide SndLossList.Valid, SndLossList.Lost, SndBuffer.Valid, Wrap, SeqOff, SeqCmp;
      CmpExact(a, abs.lastAck);
      OffExact(abs.lastAck, a);
      if SeqCmp(ack, sndLastAck) >= 0 {
        flowWindowSize := flowWindowSize - SeqOff(sndLastAck, ack);
        sndLastAck := ack;
      }
      abs := Protocol.ProcessLiteAck(abs, a);
    }

    /** processCtrl, case 2: a full ACK. */
    method ProcessFullAck(ack: int, avail: int, ghost a: int)
      requires Valid() && ack == Wrap(a) && Near(a, abs.lastAck) && Near(a, abs.curr + 1) && Near(a, abs.lastDataAck)
      modifies this, lossList, lossList.data1, lossList.data2, lossList.next, buffer
      ensures Valid() && abs == Protocol.ProcessFullAck(old(abs), a, avail)
      ensures forall b :: b in buffer.ring <==> b in old(buffer.ring)
    {
      hide SndLossList.Valid, SndLossList.Lost, SndBuffer.Valid, Wrap, SeqOff, SeqCmp;
      IncExact(abs.curr);
      CmpExact(a, abs.curr + 1);
      if SeqCmp(ack, IncSeq(sndCurrSeqNo)) > 0 {
        Break();
        return;
      }
      CmpExact(a, abs.lastAck);
      if SeqCmp(ack, sndLastAck) >= 0 {
        flowWindowSize := avail;
        sndLastAck := ack;
        abs := abs.(window := avail, lastAck := a);
      }
      OffExact(abs.lastDataAck, a);
      var offset := SeqOff(sndLastDataAck, ack);
      if offset > 0 {
        Acknowledge(ack, offset, a);
      }
    }

    /** The part of a full ACK that frees blocks. */
    method Acknowledge(ack: int, offset: int, ghost a: int)
      requires Valid() && ack == Wrap(a) && abs.lastDataAck < a <= abs.lastAck && offset == a - abs.lastDataAck
      modifies this`sndLastDataAck, this`abs
      modifies lossList, lossList.data1, lossList.data2, lossList.next, buffer
      ensures Valid() && abs == old(abs).(lastDataAck := a, buf := old(abs).buf[a - old(abs).lastDataAck..],
          currOff := old(abs).currOff - (a - old(abs).lastDataAck), loss := Above(old(abs).loss, a - 1))
      ensures forall b :: b in buffer.ring <==> b in old(buffer.ring)
    {
      hide SndLossList.Valid, SndLossList.Lost, SndBuffer.Valid, Wrap, SeqOff, SeqCmp;
      CountIs();
      buffer.AckData(offset);
      sndLastDataAck := ack;
      IncExact(a);
      lossList.Remove(DecSeq(sndLastDataAck), a - 1);
      OnlyAbove(abs.loss, a - 1, lossList.Lost());
      abs := abs.(lastDataAck := a, buf := abs.buf[offset..], currOff := abs.currOff - offset,
        loss := Above(abs.loss, a - 1));
    }

    // ----- losses -----

    /** The numbers from lo to hi, all of them in flight, are marked as lost. */
    method MarkLost(seqno1: int, seqno2: int, ghost lo: int, ghost hi: int)
      requires Valid() && seqno1 == Wrap(lo) && seqno2 == Wrap(hi)
      requires abs.lastDataAck <= lo <= hi <= abs.curr
      modifies this`abs, lossList, lossList.data1, lossList.data2, lossList.next
      ensures Valid() && abs == old(abs).(loss := old(abs).loss + Span(lo, hi))
    {
      hide SndLossList.Valid, SndLossList.Lost, SndBuffer.Valid, Wrap, Numbers;
      var num := lossList.Insert(seqno1, seqno2, lo, hi);
      SetLoss(abs.loss + Span(lo, hi));
    }

    /** The EXP branch of checkTimers. */
    method Expire()
      requires Valid()
      modifies this`abs, lossList, lossList.data1, lossList.data2, lossList.next
      ensures Valid() && abs == Protocol.Expire(old(abs))
    {
      hide SndLossList.Valid, SndLossList.Lost, SndBuffer.Valid, Wrap, SeqOff, SeqCmp;
      CountIs();
      IncExact(abs.curr);
      WrapDifference(abs.lastAck, abs.curr + 1);
      if buffer.count > 0 && IncSeq(sndCurrSeqNo) != sndLastAck && lossList.length == 0 {
        MarkLost(sndLastAck, sndCurrSeqNo, abs.lastAck, abs.curr);
      }
    }

    /** Close enough to what is in flight for the checks of a report. */
    ghost predicate Reportable(r: Range)
      reads this
    {
      && Near(r.lo, abs.lastAck) && Near(r.hi, abs.lastAck)
      && Near(r.lo, abs.curr) && Near(r.hi, abs.curr) && Near(r.lo, r.hi)
    }

    method ReportedRange(first: int, last: int, ghost r: Range) returns (secure: bool)
      requires Valid() && first == Wrap(r.lo) && last == Wrap(r.hi) && r.lo != r.hi && Reportable(r)
      modifies this`abs, lossList, lossList.data1, lossList.data2, lossList.next
      ensures Valid() && (abs, secure) == ProcessRange(old(abs), r)
    {
      hide SndLossList.Valid, SndLossList.Lost, SndBuffer.Valid, Wrap, SeqCmp, Span;
      CmpExact(r.lo, r.hi);
      CmpExact(r.hi, abs.curr);
      if SeqCmp(first, last) > 0 || SeqCmp(last, sndCurrSeqNo) > 0 {
        return false;
      }
      CmpExact(r.lo, abs.lastAck);
      CmpExact(r.hi, abs.lastAck);
      if SeqCmp(first, sndLastAck) >= 0 {
        MarkLost(first, last, r.lo, r.hi);
      } else if SeqCmp(last, sndLastAck) >= 0 {
        MarkLost(sndLastAck, last, abs.lastAck, r.hi);
      }
      return true;
    }

    method ReportedNumber(seqNo: int, ghost r: Range) returns (secure: bool)
      requires Valid() && seqNo == Wrap(r.lo) && r.lo == r.hi && Reportable(r)
      modifies this`abs, lossList, lossList.data1, lossList.data2, lossList.next
      ensures Valid() && (abs, secure) == ProcessRange(old(abs), r)
    {
      hide SndLossList.Valid, SndLossList.Lost, SndBuffer.Valid, Wrap, SeqCmp;
      CmpExact(r.lo, abs.lastAck);
      CmpExact(r.lo, abs.curr);
      if SeqCmp(seqNo, sndLastAck) >= 0 {
        if SeqCmp(seqNo, sndCurrSeqNo) > 0 {
          return false;
        }
        SpanOne(r.lo);
        MarkLost(seqNo, seqNo, r.lo, r.lo);
      }
      return true;
    }

    /** processCtrl, case 3: the words of a loss report. */
    method ProcessNak(words: seq<int>, ghost ranges: seq<Range>)
      requires Valid() && words == Encode(ranges)
      requires forall i :: 0 <= i < |ranges| ==> Reportable(ranges[i])
      modifies this`abs, this`broken, lossList, lossList.data1, lossList.data2, lossList.next
      ensures Valid() && abs == Protocol.ProcessNak(old(abs), ranges)
    {
      hide SndLossList.Valid, SndLossList.Lost, SndBuffer.Valid, Wrap, SeqCmp, Encode, Numbers, ValidBut, ProcessRange;
      var secure := true;
      var i := 0;
      ghost var k := 0;
      assert words[0..] == words && ranges[0..] == ranges;
      while i < |words|
        invariant 0 <= i <= |words| && 0 <= k <= |ranges| && Valid() && secure
        invariant words[i..] == Encode(ranges[k..])
        invariant abs.lastAck == old(abs.lastAck) && abs.curr == old(abs.curr)
        invariant Protocol.ProcessNak(old(abs), ranges) == Protocol.ProcessNak(abs, ranges[k..])
      {
        ReportWords(words, i, ranges, k);
        RangeKeepsAcks(abs, ranges[k]);
        if words[i] >= CIRCLE {
          secure := ReportedRange(words[i] - CIRCLE, words[i + 1], ranges[k]);
          i := i + 1;
        } else {
          secure := ReportedNumber(words[i], ranges[k]);
        }
        if !secure {
          break;
        }
        i := i + 1;
        k := k + 1;
      }
      if !secure {
        Break();
      } else {
        NoWords(ranges[k..]);
      }
    }

    method Break()
      requires Valid()
      modifies this`broken, this`abs
      ensures Valid() && abs == old(abs).(broken := true)
    {
      hide SndLossList.Valid, SndLossList.Lost, SndBuffer.Valid, Wrap;
      broken := true;
      abs := abs.(broken := true);
    }

    lemma CountIs()
      requires Valid()
      ensures buffer.count == |abs.buf| && buffer.mss > 0 && 0 < lossList.size < SEQ_NO_TH
      ensures buffer.Valid() && buffer.waiting == abs.buf && buffer.sent == abs.currOff
      ensures lossList.length == 0 <==> abs.loss == {}
    {
      lossList.LostIsEmpty();
    }
  }

  lemma OnlyAbove(loss: set<int>, n: int, rest: set<int>)
    requires forall x :: x in rest <==> x in loss && x > n
    ensures rest == Above(loss, n)
  {
    assert forall x | x in rest :: x in loss;
    assert rest <= loss;
  }

  lemma SpanOne(n: int)
    ensures Span(n, n) == {n}
  {
  }

  lemma RangeKeepsAcks(s: Sender, r: Range)
    ensures var s' := ProcessRange(s, r).0; s'.lastAck == s.lastAck && s'.curr == s.curr
  {
  }

  lemma NoWords(rs: seq<Range>)
    requires Encode(rs) == []
    ensures rs == []
  {
    if rs != [] { EncodeHead(rs); }
  }

  /** The word at i begins the report's entry k. */
  lemma ReportWords(words: seq<int>, i: nat, rs: seq<Range>, k: nat)
    requires i < |words| && k <= |rs| && words[i..] == Encode(rs[k..])
    ensures k < |rs| && rs[k..][0] == rs[k] && rs[k..][1..] == rs[k + 1..] && rs[k..] != []
    ensures var r := rs[k];
            if r.lo == r.hi then
              words[i] == Wrap(r.lo) && words[i] < CIRCLE && words[i + 1..] == Encode(rs[k + 1..])
            else
              && words[i] >= CIRCLE && words[i] - CIRCLE == Wrap(r.lo) && i + 1 < |words| && words[i + 1] == Wrap(r.hi)
              && words[i + 2..] == Encode(rs[k + 1..])
  {
    EncodeHead(rs[k..]);
    var e := EncodeRange(rs[k]);
    assert words[i..] == e + Encode(rs[k + 1..]);
    assert words[i] == words[i..][0];
    assert words[i + |e|..] == words[i..][|e|..];
    if rs[k].lo != rs[k].hi { assert words[i + 1] == words[i..][1]; }
  }

}
