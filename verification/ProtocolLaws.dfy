/**
 What each operation of the connection does, said without the operation: how much a send takes, which packet goes out
 and under which windows, what an acknowledgement, a report and a timeout change, what an arrival changes and reports,
 and which number an acknowledgement carries.
 */
module ProtocolLaws {
  import opened Common
  import opened SeqNo
  import opened StreamRing
  import opened Protocol
  import opened ProtocolSafety
  import opened LossReport
  import opened ReceiverHalf
  import opened Endpoints

  // ----- send -----

  lemma ExactQuotient(k: nat, d: nat)
    requires d >= 1
    ensures PacketCount(k * d, d) == k
  {
    DivUnique(k * d, d, k, 0);
  }

  lemma {:induction false} FullButLast(data: seq<byte>, mss: nat)
    requires mss >= 1
    ensures forall i :: 0 <= i < |Chunks(data, mss)| - 1 ==> |Chunks(data, mss)[i]| == mss
    decreases |data|
  {
    if |data| > mss {
      FullButLast(data[mss..], mss);
    }
  }

  /**
   send takes a prefix of the data, cuts it into full payloads and one rest, and falls short only when it has filled
   the sending buffer.
   */
  lemma SendFillsBuffer(c: Config, s: Sender, data: seq<byte>)
    requires c.Valid()
    ensures var (s', size) := Send(c, s, data);
            && size <= |data| && s' == s.(buf := s'.buf) && s.buf <= s'.buf
            && Flatten(s'.buf[|s.buf|..]) == data[..size]
            && (size < |data| ==> |s'.buf| >= c.sndBufSize)
            && (|s.buf| <= c.sndBufSize ==> |s'.buf| <= c.sndBufSize)
            && (forall i :: |s.buf| <= i < |s'.buf| ==> 0 < |s'.buf[i]| <= c.mss)
            && (forall i :: |s.buf| <= i < |s'.buf| - 1 ==> |s'.buf[i]| == c.mss)
  {
    hide Chunks, Flatten, PacketCount;
    var (s', size) := Send(c, s, data);
    if data == [] || c.sndBufSize <= |s.buf| {
      FlattenNone();
      assert s'.buf[|s.buf|..] == [] && data[..0] == [];
    } else {
      var chunks, free := Chunks(data[..size], c.mss), c.sndBufSize - |s.buf|;
      assert s'.buf[|s.buf|..] == chunks;
      ChunksFlatten(data[..size], c.mss);
      FullButLast(data[..size], c.mss);
      ChunksCount(data[..size], c.mss);
      ExactQuotient(free, c.mss);
      AtMost(size, free, c.mss);
    }
  }

  lemma FlattenNone()
    ensures Flatten([]) == []
  {
  }

  lemma AtMost(n: nat, k: nat, d: nat)
    requires d >= 1 && n <= k * d
    ensures PacketCount(n, d) <= k
  {
    var q := n / d;
    DivParts(n, d);
    assert q * d == k * d + (q - k) * d;
    if q > k { Multiples(q - k, d); }
  }

  // ----- packData -----

  /** What is marked as lost goes first, the smallest number of all, with the block that waits under it. */
  lemma PackResendsFirst(s: Sender, cong: int)
    requires s.Valid() && s.loss != {}
    ensures var (s', p) := PackData(s, cong);
            && p.Some? && p.value.Data? && p.value.seqNo in s.loss && (forall m :: m in s.loss ==> p.value.seqNo <= m)
            && p.value.payload == s.buf[p.value.seqNo - s.lastDataAck]
            && s' == s.(loss := s.loss - {p.value.seqNo})
  {
  }

  /**
   With nothing lost a new packet goes out exactly when a block waits and both windows have room for one more, and it
   carries the next number and the next block.
   */
  lemma PackObeysWindows(s: Sender, cong: int)
    requires s.Valid() && s.loss == {}
    ensures var (s', p) := PackData(s, cong);
            && (p.Some? <==> s.curr + 1 - s.lastDataAck < |s.buf|
                             && s.curr + 2 - s.lastAck <= cong && s.curr + 2 - s.lastAck <= s.window)
            && (p.Some? ==> p.value == Data(s.curr + 1, s.buf[s.curr + 1 - s.lastDataAck])
                            && s' == s.(curr := s.curr + 1, currOff := s.currOff + 1))
            && (p.None? ==> s' == s)
  {
  }

  /** Whatever is sent anew, no more is outstanding than either window allows. */
  lemma PackWithinWindows(s: Sender, cong: int)
    requires s.Valid()
    ensures var s' := PackData(s, cong).0;
            s'.curr > s.curr ==> s'.curr + 1 - s'.lastAck <= cong && s'.curr + 1 - s'.lastAck <= s.window
  {
  }

  // ----- acknowledgements at the sender -----

  lemma LiteAckMoves(s: Sender, a: int)
    ensures var s' := ProcessLiteAck(s, a);
            && s'.lastAck == Max(s.lastAck, a) && s'.lastAck + s'.window == s.lastAck + s.window
            && s' == s.(lastAck := s'.lastAck, window := s'.window)
  {
  }

  /**
   A full ACK of what was never sent breaks the connection. Any other moves both marks, never back, frees exactly the
   blocks below, takes exactly the numbers below off the loss list, and brings the advertised window unless it is old.
   */
  lemma FullAckFrees(s: Sender, a: int, avail: int)
    requires s.Valid()
    ensures var s' := ProcessFullAck(s, a, avail);
            && (a > s.curr + 1 ==> s' == s.(broken := true))
            && (a <= s.curr + 1 ==>
                  && s'.lastAck == Max(s.lastAck, a) && s'.lastDataAck == Max(s.lastDataAck, a)
                  && s'.window == (if a < s.lastAck then s.window else avail)
                  && s'.buf == s.buf[s'.lastDataAck - s.lastDataAck..]
                  && (forall n :: n in s'.loss <==> n in s.loss && n >= s'.lastDataAck)
                  && s'.curr == s.curr && s'.broken == s.broken && s'.currOff == s.curr + 1 - s'.lastDataAck)
  {
  }

  /** The report names what was never sent, or a range that ends before it begins. */
  ghost predicate Impossible(s: Sender, r: Range) {
    r.lo > r.hi || r.hi > s.curr
  }

  /** Entry i of the report, and every one before it, can be true. */
  ghost predicate SoundTo(s: Sender, ranges: seq<Range>, i: int) {
    0 <= i < |ranges| && forall j :: 0 <= j <= i ==> !Impossible(s, ranges[j])
  }

  /**
   A report breaks the connection exactly when one of its entries is impossible. Up to there it marks exactly the
   reported numbers that are not acknowledged, and it changes nothing else.
   */
  lemma {:induction false} ReportIsTaken(s: Sender, ranges: seq<Range>, x: int)
    requires s.lastAck <= s.curr + 1
    ensures var s' := ProcessNak(s, ranges);
            && s' == s.(loss := s'.loss, broken := s'.broken)
            && (s'.broken <==> s.broken || exists i :: 0 <= i < |ranges| && Impossible(s, ranges[i]))
            && (x in s'.loss <==>
                  || x in s.loss
                  || exists i :: SoundTo(s, ranges, i) && s.lastAck <= x && ranges[i].lo <= x <= ranges[i].hi)
    decreases |ranges|
  {
    if ranges != [] {
      var r, rest := ranges[0], ranges[1..];
      var (s1, ok) := ProcessRange(s, r);
      assert ok <==> !Impossible(s, r);
      assert ok ==> (x in s1.loss <==> x in s.loss || (s.lastAck <= x && r.lo <= x <= r.hi));
      if ok {
        ReportIsTaken(s1, rest, x);
        EntriesShift(s, s1, ranges, x);
      } else {
        assert Impossible(s, ranges[0]);
        assert forall i :: !SoundTo(s, ranges, i);
      }
    }
  }

  lemma EntriesShift(s: Sender, s1: Sender, ranges: seq<Range>, x: int)
    requires ranges != [] && s1.curr == s.curr && !Impossible(s, ranges[0])
    ensures (exists i :: 0 <= i < |ranges| && Impossible(s, ranges[i])) <==>
            (exists i :: 0 <= i < |ranges[1..]| && Impossible(s1, ranges[1..][i]))
    ensures (exists i :: SoundTo(s, ranges, i) && ranges[i].lo <= x <= ranges[i].hi) <==>
            (ranges[0].lo <= x <= ranges[0].hi
             || exists i :: SoundTo(s1, ranges[1..], i) && ranges[1..][i].lo <= x <= ranges[1..][i].hi)
  {
    var rest := ranges[1..];
    forall i | 0 <= i < |rest|
      ensures rest[i] == ranges[i + 1] && (SoundTo(s1, rest, i) <==> SoundTo(s, ranges, i + 1))
    {
      if SoundTo(s1, rest, i) {
        forall j | 0 <= j <= i + 1
          ensures !Impossible(s, ranges[j])
        {
          if j > 0 { assert !Impossible(s1, rest[j - 1]); }
        }
      }
      if SoundTo(s, ranges, i + 1) {
        forall j | 0 <= j <= i
          ensures !Impossible(s1, rest[j])
        {
          assert !Impossible(s, ranges[j + 1]);
        }
      }
    }
    if i :| 0 <= i < |ranges| && Impossible(s, ranges[i]) {
      assert Impossible(s1, rest[i - 1]);
    }
    if i :| 0 <= i < |rest| && Impossible(s1, rest[i]) {
      assert Impossible(s, ranges[i + 1]);
    }
    assert SoundTo(s, ranges, 0);
    if i :| SoundTo(s, ranges, i) && ranges[i].lo <= x <= ranges[i].hi {
      if i > 0 { assert SoundTo(s1, rest, i - 1) && rest[i - 1].lo <= x <= rest[i - 1].hi; }
    }
    if i :| SoundTo(s1, rest, i) && rest[i].lo <= x <= rest[i].hi {
      assert SoundTo(s, ranges, i + 1) && ranges[i + 1].lo <= x <= ranges[i + 1].hi;
    }
  }

  // ----- the timeout -----

  /** A timeout marks everything unacknowledged, if there is something to send and nothing is marked yet. */
  lemma ExpireMarks(s: Sender, n: int)
    ensures n in Expire(s).loss <==> n in s.loss || (s.loss == {} && s.buf != [] && s.lastAck <= n <= s.curr)
    ensures Expire(s) == s.(loss := Expire(s).loss)
    ensures s.loss != {} ==> Expire(s) == s
  {
  }

  // ----- an arrival -----

  /** The packet has arrived, and is not behind the ACK position. */
  ghost predicate Here(r: Receiver, m: int) {
    r.lastAck <= m <= r.curr && m !in r.loss
  }

  /** An arrival is reported exactly when it leaves new numbers missing, and the report names exactly these. */
  lemma GapIsReported(r: Receiver, n: int, b: Block)
    requires r.Valid()
    ensures var (r', p) := ProcessData(r, n, b);
            && (p.Some? <==> r'.loss - r.loss != {})
            && (p.Some? ==> p.value.Nak? && Covered(p.value.ranges) == r'.loss - r.loss)
  {
    hide ProcessData, AddData, Ring.Valid, Detected, GapReport;
    ProcessDataCases(r, n, b);
    if 0 <= n - r.lastAck < r.ring.Avail() {
      DetectedLoss(r, AddData(r.ring, n - r.lastAck, b).0, n);
    }
    assert r.loss - r.loss == {};
  }

  lemma DetectedLoss(r: Receiver, ring: Ring, n: int)
    requires forall m :: m in r.loss ==> m <= r.curr
    ensures var added := Detected(r.(ring := ring), n).loss - r.loss;
            && (GapReport(r, n).Some? <==> added != {})
            && (GapReport(r, n).Some? ==> GapReport(r, n).value.Nak? && Covered(GapReport(r, n).value.ranges) == added)
  {
    var added := Detected(r.(ring := ring), n).loss - r.loss;
    if n > r.curr {
      assert added == Span(r.curr + 1, n - 1);
      if n > r.curr + 1 { assert r.curr + 1 in added; }
      CoveredOne(Range(r.curr + 1, n - 1));
    } else {
      assert added == {};
    }
  }

  lemma CoveredOne(r: Range)
    ensures Covered([r]) == Span(r.lo, r.hi)
  {
    assert [r][..0] == [];
  }

  /**
   A packet is taken exactly when its number lies in the free part of the receive window: then it is here, with its
   payload in its slot. Nothing else comes or goes, and no mark but the largest number moves.
   */
  lemma ArrivalIsStored(c: Config, r: Receiver, blocks: seq<Block>, n: int, b: Block, m: int)
    requires ReceiverInv(c, r, blocks)
    ensures var r', at := ProcessData(r, n, b).0, r.ring.dataSize + n - r.lastAck;
            var taken := r.lastAck <= n < r.lastAck + |r.ring.slots| - r.ring.dataSize - 1;
            && (Here(r', m) <==> Here(r, m) || (taken && m == n))
            && |r'.ring.slots| == |r.ring.slots|
            && (forall i :: 0 <= i < |r.ring.slots| ==>
                  r'.ring.slots[i] == if taken && i == at && !Here(r, n) then Some(b) else r.ring.slots[i])
            && r'.ring == r.ring.(slots := r'.ring.slots, maxPos := r'.ring.maxPos)
            && r'.ring.maxPos == (if taken then Max(r.ring.maxPos, n - r.lastAck) else r.ring.maxPos)
            && r' == r.(loss := r'.loss, curr := r'.curr, ring := r'.ring)
            && r'.curr == if taken then Max(r.curr, n) else r.curr
  {
    hide SlotInv, ProcessData;
    ProcessDataCases(r, n, b);
    var at := r.ring.dataSize + n - r.lastAck;
    if 0 <= n - r.lastAck < r.ring.Avail() {
      assert SlotInv(c, r, blocks, at);
      SlotTells(c, r, blocks, n);
    }
  }

  lemma SlotTells(c: Config, r: Receiver, blocks: seq<Block>, n: int)
    requires r.lastAck <= n && r.ring.dataSize + n - r.lastAck < |r.ring.slots|
    requires SlotInv(c, r, blocks, r.ring.dataSize + n - r.lastAck)
    ensures r.ring.slots[r.ring.dataSize + n - r.lastAck].Some? <==> Here(r, n)
  {
  }

  // ----- what acknowledgements carry -----

  /** Everything from the ACK position up to a has arrived, and a has not. */
  ghost predicate FirstMissing(r: Receiver, a: int) {
    r.lastAck <= a && !Here(r, a) && forall m :: r.lastAck <= m < a ==> Here(r, m)
  }

  lemma NextAckIsFirstMissing(r: Receiver, a: int)
    requires r.Valid()
    ensures FirstMissing(r, NextAck(r))
    ensures FirstMissing(r, a) ==> a == NextAck(r)
  {
    hide NextAck;
    NextAckBounds(r);
    assert FirstMissing(r, a) && NextAck(r) < a ==> Here(r, NextAck(r));
  }

  /** A lite ACK carries the first missing number, unless that equals the last confirmed one on the circle. */
  lemma LiteAckCarries(r: Receiver, a: int)
    requires r.Valid() && FirstMissing(r, a)
    ensures LiteAckStep(r) == if Wrap(a) == Wrap(r.lastAckAck) then None else Some(LiteAck(a))
    ensures Protocol.SendLiteAck(r) == if a == r.lastAckAck then None else Some(LiteAck(a))
  {
    hide FirstMissing, NextAck;
    NextAckIsFirstMissing(r, a);
  }

  /**
   The ACK timer moves the ACK position to the first missing number, unless that equals the last confirmed one, and
   sends it when it compares as newer and is new or to be repeated, with the room that is left, but at least 2.
   */
  lemma FullAckCarries(r: Receiver, a: int, repeat: bool)
    requires r.Valid() && FirstMissing(r, a)
    ensures var (r', p) := FullAckStep(r, repeat);
            var k, same := r.ackSeq + 1, Wrap(a) == Wrap(r.lastAckAck);
            var sent := !same && (a > r.lastAck || repeat) && SeqCmp(Wrap(a), Wrap(r.lastAckAck)) > 0;
            && r'.lastAck == (if same then r.lastAck else a)
            && r'.ring.slots == r.ring.slots && r'.ring.notch == r.ring.notch
            && r'.ring.dataSize == r.ring.dataSize + r'.lastAck - r.lastAck
            && r'.ring.maxPos == Max(r.ring.maxPos - (r'.lastAck - r.lastAck), 0)
            && r'.loss == r.loss && r'.curr == r.curr && r'.lastAckAck == r.lastAckAck
            && r'.ackSeq == (if sent then k else r.ackSeq)
            && r'.ackWindow == (if sent then r.ackWindow[k := a] else r.ackWindow)
            && p == if sent then Some(FullAck(k, a, Max(|r.ring.slots| - 1 - r'.ring.dataSize, 2))) else None
  {
    hide FirstMissing, NextAck, Wrap, SeqCmp;
    NextAckIsFirstMissing(r, a);
    NextAckBounds(r);
  }

  /** A confirmed ACK moves the mark up to the number it was sent with, never back, and nothing else. */
  lemma ConfirmationMoves(r: Receiver, k: nat)
    ensures var r' := ProcessAck2(r, k);
            && r' == r.(lastAckAck := r'.lastAckAck)
            && r'.lastAckAck == if k in r.ackWindow then Max(r.lastAckAck, r.ackWindow[k]) else r.lastAckAck
  {
  }

  // ----- recv -----

  /** recv falls short only when nothing acknowledged is left to read. */
  lemma RecvEmptiesBuffer(r: Receiver, len: nat)
    requires r.ring.Valid()
    ensures var (r', data) := Recv(r, len);
            |data| <= len && (|data| < len ==> r'.ring.dataSize == 0) && r' == r.(ring := r'.ring)
  {
    hide ReadBuffer, Ring.Valid;
    ReadEmpties(r.ring, len);
  }

  lemma {:induction false} ReadEmpties(r: Ring, len: nat)
    requires r.Valid()
    ensures var (r', data) := ReadBuffer(r, len); |data| <= len && (|data| < len ==> r'.dataSize == 0)
    decreases r.dataSize
  {
    if r.dataSize > 0 && len > 0 {
      var left := |r.slots[0].value| - r.notch;
      if left <= len { ReadEmpties(DropFirst(r), len - left); }
    }
  }

  // ----- the beginning -----

  /** Nothing sent, nothing received, and the sender may send what fits receive buffer and flight size. */
  lemma StartsEmpty(c: Config)
    ensures var w := Initial(c);
            && w.snd.lastAck == w.snd.lastDataAck == w.snd.curr + 1 == c.isn && w.snd.loss == {} && w.snd.buf == []
            && w.snd.window == (if c.rcvBufSize < c.flightFlagSize then c.rcvBufSize else c.flightFlagSize)
            && w.rcv.lastAck == w.rcv.lastAckAck == w.rcv.curr + 1 == c.isn && w.rcv.loss == {}
            && w.rcv.ring.dataSize == 0 && |w.rcv.ring.slots| == c.rcvBufSize
            && w.net == {} && w.accepted == [] && w.delivered == []
  {
  }
}
