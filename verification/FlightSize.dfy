/**
 When the two loss lists are large enough. The sender's is allocated with twice the window of the handshake, the
 receiver's with the flight size; setting the flight size after the receive buffer can leave either too small.
 */
module FlightSize {
  import opened Common
  import opened StreamRing
  import opened Protocol
  import opened ProtocolSafety
  import opened ProtocolRuns
  import opened ProtocolProgress

  ghost predicate Reachable(c: Config, w: World)
    requires c.Valid()
  {
    exists es :: RunFromStart(c, es) == w
  }

  lemma ReachableInv(c: Config, w: World)
    requires c.Valid() && Reachable(c, w)
    ensures Inv(c, w) && WellFormed(c, w) && !w.snd.broken
  {
    var es :| RunFromStart(c, es) == w;
    InvWellFormed(c, w);
  }

  lemma ReachableOn(c: Config, w: World, w': World)
    requires c.Valid() && Reachable(c, w) && Inv(c, w) && Reaches(c, w, w', false)
    ensures Reachable(c, w')
  {
    hide Inv;
    var es :| RunFromStart(c, es) == w;
    var fs :| Quiet(fs) && Run(c, w, fs) == w';
    InitialInv(c);
    RunConcat(c, Initial(c), es, fs);
    assert RunFromStart(c, es + fs) == w';
  }

  lemma ReachableStep(c: Config, w: World, e: Event)
    requires c.Valid() && Reachable(c, w)
    ensures WellFormed(c, w) && Reachable(c, Step(c, w, e))
  {
    hide Inv, Step;
    ReachableInv(c, w);
    var es :| RunFromStart(c, es) == w;
    InitialInv(c);
    RunConcat(c, Initial(c), es, [e]);
    StepKeeps(c, w, e);
    assert [e][1..] == [];
    assert Run(c, w, [e]) == Run(c, Step(c, w, e), []);
    assert RunFromStart(c, es + [e]) == Step(c, w, e);
  }

  /** k more bytes, sent one by one, wait as k more blocks. */
  lemma {:induction false} ManySends(c: Config, w: World, k: nat) returns (w': World)
    requires c.Valid() && Reachable(c, w) && |w.snd.buf| + k <= c.sndBufSize
    ensures Reachable(c, w') && |w'.snd.buf| == |w.snd.buf| + k && |w'.blocks| == |w.blocks| + k
    ensures w'.snd == w.snd.(buf := w'.snd.buf) && w'.rcv == w.rcv
    decreases k
  {
    hide Inv, Reachable, Step;
    if k == 0 {
      w' := w;
    } else {
      var w0 := ManySends(c, w, k - 1);
      ReachableInv(c, w0);
      ReachableStep(c, w0, AppSend([0]));
      w' := Step(c, w0, AppSend([0]));
      OneSend(c, w0);
    }
  }

  lemma NothingYet(c: Config)
    requires c.Valid()
    ensures Reachable(c, Initial(c))
  {
    InitialInv(c);
    assert RunFromStart(c, []) == Initial(c);
  }

  lemma OneSend(c: Config, w: World)
    requires WellFormed(c, w) && !w.snd.broken && |w.snd.buf| < c.sndBufSize
    ensures var w1 := Step(c, w, AppSend([0]));
            && w1.rcv == w.rcv && w1.snd == w.snd.(buf := w1.snd.buf)
            && |w1.snd.buf| == |w.snd.buf| + 1 && |w1.blocks| == |w.blocks| + 1 && w1.net == w.net
  {
    assert (c.sndBufSize - |w.snd.buf|) * c.mss >= 1;
    assert [0][..1] == [0];
    assert |Chunks([0], c.mss)| == 1;
  }

  /** The first packet goes through and everything about it is settled. */
  lemma FirstPacket(c: Config, w: World) returns (w': World)
    requires c.Valid() && Reachable(c, w) && w.snd == InitialSender(c).(buf := w.snd.buf) && w.rcv == InitialReceiver(c)
    requires |w.blocks| == |w.snd.buf| > 0
    ensures Reachable(c, w') && Inv(c, w') && Settled(w') && w'.blocks == w.blocks
    ensures w'.rcv.lastAck == w'.snd.curr + 1 == c.isn + 1 && w'.snd.loss == {}
    ensures w'.snd.lastDataAck == c.isn
  {
    hide Inv, Step, NextAck, Reachable;
    ReachableInv(c, w);
    ReachableStep(c, w, Pack(1));
    var w1 := Step(c, w, Pack(1));
    var b := PackFirst(c, w);
    ReachableInv(c, w1);
    NextPacketAdmitted(c, w1, b);
    ReachableStep(c, w1, Deliver(Data(c.isn, b), true));
    var w2 := Step(c, w1, Deliver(Data(c.isn, b), true));
    ReachableInv(c, w2);
    w' := Settle(c, w2);
    ReachableOn(c, w2, w');
    SenderBehindReceiver(c, w');
  }

  lemma PackFirst(c: Config, w: World) returns (b: Block)
    requires Inv(c, w) && w.snd == InitialSender(c).(buf := w.snd.buf) && w.rcv == InitialReceiver(c) && |w.snd.buf| > 0
    ensures WellFormed(c, w)
    ensures var w1 := Step(c, w, Pack(1));
            && Data(c.isn, b) in w1.net && w1.rcv == w.rcv && w1.blocks == w.blocks && Settled(w1)
            && w1.snd.curr == c.isn && w1.snd.loss == {} && w1.snd.lastDataAck == c.isn
  {
    b := w.snd.buf[0];
  }

  /** The receiver advertises its whole buffer. */
  lemma WideWindow(c: Config, w: World) returns (w': World)
    requires c.Valid() && Reachable(c, w) && Inv(c, w) && Settled(w) && w.snd.loss == {}
    requires w.rcv.lastAck == w.snd.curr + 1 == w.snd.lastDataAck + 1
    ensures Reachable(c, w') && Open(w') && w'.snd.window == c.rcvBufSize - 1
    ensures w'.blocks == w.blocks && w'.snd.curr == w.snd.curr
  {
    hide Inv, Step, NextAck, Reachable;
    NotYetConfirmed(c, w);
    RepeatedAck(c, w);
    ReachableStep(c, w, AckTimer(true));
    var w1 := Step(c, w, AckTimer(true));
    var k, avail := w1.rcv.ackSeq, Max(w1.rcv.ring.Avail(), 2);
    ReachableInv(c, w1);
    RingSize(c, w1);
    FullAckOpens(c, w1, k, avail);
    ReachableStep(c, w1, Deliver(FullAck(k, w1.rcv.lastAck, avail), false));
    w' := Step(c, w1, Deliver(FullAck(k, w1.rcv.lastAck, avail), false));
  }

  lemma NotYetConfirmed(c: Config, w: World)
    requires Inv(c, w) && w.rcv.lastAck > w.snd.lastDataAck
    ensures w.rcv.lastAckAck != w.rcv.lastAck
  {
  }

  lemma RingSize(c: Config, w: World)
    requires Inv(c, w) && Settled(w)
    ensures w.rcv.ring.Avail() == c.rcvBufSize - 1
  {
  }

  /** The sender fills the window with packets that have not been sent before; the last one is in flight. */
  lemma {:induction false} FillWindow(c: Config, w: World, j: nat) returns (w': World)
    requires c.Valid() && Reachable(c, w) && w.snd.loss == {} && w.snd.lastAck == w.snd.lastDataAck
    requires w.snd.curr + 1 + j <= w.snd.lastDataAck + w.snd.window && w.snd.curr + 1 + j <= c.isn + |w.blocks|
    ensures Reachable(c, w') && w'.rcv == w.rcv && w'.blocks == w.blocks
    ensures w'.snd == w.snd.(curr := w.snd.curr + j, currOff := w.snd.currOff + j)
    ensures if j == 0 then w' == w else exists b :: Data(w'.snd.curr, b) in w'.net
    decreases j
  {
    hide Inv, Step, Reachable;
    if j == 0 {
      w' := w;
    } else {
      ReachableInv(c, w);
      ReachableStep(c, w, Pack(w.snd.window));
      PackNext(c, w);
      w' := FillWindow(c, Step(c, w, Pack(w.snd.window)), j - 1);
    }
  }

  lemma PackNext(c: Config, w: World)
    requires Inv(c, w) && w.snd.loss == {} && w.snd.lastAck == w.snd.lastDataAck
    requires w.snd.curr + 2 <= w.snd.lastDataAck + w.snd.window && w.snd.curr + 2 <= c.isn + |w.blocks|
    ensures WellFormed(c, w)
    ensures var w1 := Step(c, w, Pack(w.snd.window));
            && w1.blocks == w.blocks && w1.rcv == w.rcv
            && w1.snd == w.snd.(curr := w.snd.curr + 1, currOff := w.snd.currOff + 1)
            && exists b :: Data(w1.snd.curr, b) in w1.net
  {
    var w1 := Step(c, w, Pack(w.snd.window));
    assert Data(w1.snd.curr, w.snd.buf[w.snd.currOff]) in w1.net;
  }

  // ----- how much can be outstanding -----

  /** As many packets as the receive buffer has usable slots, or the sending buffer has blocks. */
  function Widest(c: Config): int {
    Min(c.rcvBufSize - 1, c.sndBufSize)
  }

  /** The sending buffer keeps to its limit, and the largest number received is not missing. */
  ghost predicate Bounded(c: Config, w: World) {
    |w.snd.buf| <= c.sndBufSize && w.rcv.curr !in w.rcv.loss
  }

  lemma {:induction false} RunBounded(c: Config, w: World, es: seq<Event>)
    requires Inv(c, w) && Bounded(c, w)
    ensures Bounded(c, Run(c, w, es))
    decreases |es|
  {
    hide Inv, Step, Bounded;
    if es != [] {
      InvWellFormed(c, w);
      StepKeeps(c, w, es[0]);
      StepBounded(c, w, es[0]);
      RunBounded(c, Step(c, w, es[0]), es[1..]);
    }
  }

  lemma StepBuffer(c: Config, w: World, e: Event)
    requires WellFormed(c, w) && |w.snd.buf| <= c.sndBufSize
    ensures |Step(c, w, e).snd.buf| <= c.sndBufSize
  {
    hide ProcessData, SendFullAck, ReadBuffer;
    match e
    case AppSend(data) => SendBuffer(c, w.snd, data);
    case Deliver(Nak(ranges), _) => ReportsKeepBuffer(w.snd, ranges);
    case _ =>
  }

  lemma StepBounded(c: Config, w: World, e: Event)
    requires WellFormed(c, w) && Bounded(c, w)
    ensures Bounded(c, Step(c, w, e))
  {
    hide ProcessData, SendFullAck, ReadBuffer, PackData, ProcessNak, ProcessFullAck;
    StepBuffer(c, w, e);
    match e
    case AckTimer(repeat) => SendFullAckCases(w.rcv, repeat);
    case Deliver(Data(n, b), _) => DataBounded(w.rcv, n, b);
    case _ =>
  }

  lemma DataBounded(r: Receiver, n: int, b: Block)
    requires r.Valid() && r.curr !in r.loss
    ensures var r' := ProcessData(r, n, b).0; r'.curr !in r'.loss
  {
  }

  lemma SendBuffer(c: Config, s: Sender, data: seq<byte>)
    requires c.Valid() && |s.buf| <= c.sndBufSize
    ensures |Send(c, s, data).0.buf| <= c.sndBufSize
  {
    hide Chunks;
    if data != [] && |s.buf| < c.sndBufSize {
      var free := c.sndBufSize - |s.buf|;
      var size := Send(c, s, data).1;
      FewChunks(data[..size], c.mss, free);
    }
  }

  lemma {:induction false} FewChunks(data: seq<byte>, mss: nat, k: nat)
    requires mss >= 1 && |data| <= k * mss
    ensures |Chunks(data, mss)| <= k
    decreases k
  {
    if |data| > mss {
      assert k > 1;
      assert (k - 1) * mss == k * mss - mss;
      FewChunks(data[mss..], mss, k - 1);
    } else if data != [] {
      assert k > 0;
    }
  }

  lemma {:induction false} ReportsKeepBuffer(s: Sender, ranges: seq<Range>)
    ensures ProcessNak(s, ranges).buf == s.buf
    decreases |ranges|
  {
    if ranges != [] {
      ReportsKeepBuffer(ProcessRange(s, ranges[0]).0, ranges[1..]);
    }
  }

  lemma SpanBound(c: Config, w: World)
    requires c.Valid() && Reachable(c, w)
    ensures Inv(c, w) && Bounded(c, w)
    ensures w.snd.curr + 1 - w.snd.lastDataAck <= Min(c.LargestWindow(), c.sndBufSize)
    ensures forall m, n :: m in w.snd.loss && n in w.snd.loss ==> m - n < Min(c.LargestWindow(), c.sndBufSize)
  {
    hide Inv, Run;
    var es :| RunFromStart(c, es) == w;
    InitialInv(c);
    RunBounded(c, Initial(c), es);
    ReachableInv(c, w);
    LossListsFit(c, es);
  }

  /** Missing numbers lie in the receive window, were sent, and a later one has arrived. */
  lemma MissingPair(c: Config, w: World, m: int, n: int)
    requires Inv(c, w) && Bounded(c, w) && m in w.rcv.loss && n in w.rcv.loss
    ensures m - n <= Widest(c) - 2
  {
    hide HistoryInv, DeliveredInv, NetInv, WindowInv;
  }

  /** Some run leaves as many packets outstanding as can be, all of them news to the receiver. */
  lemma WidestSpan(c: Config) returns (w: World)
    requires c.Valid()
    ensures Reachable(c, w) && w.snd.curr + 1 - w.snd.lastDataAck == Widest(c)
    ensures Widest(c) > 0 ==>
              && (exists b :: Data(w.snd.curr, b) in w.net)
              && Settled(w) && w.rcv.lastAck == w.rcv.curr + 1 == w.snd.lastAck == w.snd.lastDataAck && w.snd.loss == {}
  {
    hide Inv, Step, Reachable, Settled;
    NothingYet(c);
    w := Initial(c);
    if c.sndBufSize > 0 {
      var w0 := ManySends(c, w, 1);
      var w1 := FirstPacket(c, w0);
      var w2 := WideWindow(c, w1);
      ReachableInv(c, w2);
      NothingWaits(c, w2);
      var w3 := ManySends(c, w2, Widest(c));
      w := FillWindow(c, w3, Widest(c));
      StillSettled(w2, w);
    }
  }

  lemma NothingWaits(c: Config, w: World)
    requires Inv(c, w) && Open(w) && w.snd.curr + 1 == c.isn + |w.blocks|
    ensures w.snd.buf == [] && w.rcv.curr + 1 == w.rcv.lastAck
  {
    NextAckBounds(w.rcv);
  }

  lemma StillSettled(w: World, w': World)
    requires Settled(w) && w'.rcv == w.rcv
    ensures Settled(w')
  {
  }

  /** The last packet arrives first, and all the others are missing. */
  lemma WidestGap(c: Config) returns (w: World)
    requires c.Valid() && Widest(c) >= 2
    ensures Reachable(c, w) && exists m, n :: m in w.rcv.loss && n in w.rcv.loss && m - n == Widest(c) - 2
  {
    hide Inv, Step, Reachable;
    var w0 := WidestSpan(c);
    var b :| Data(w0.snd.curr, b) in w0.net;
    ReachableStep(c, w0, Deliver(Data(w0.snd.curr, b), true));
    w := Step(c, w0, Deliver(Data(w0.snd.curr, b), true));
    ReachableInv(c, w0);
    LastComesFirst(c, w0, b);
    assert w0.snd.curr - 1 in w.rcv.loss && w0.rcv.lastAck in w.rcv.loss;
  }

  lemma LastComesFirst(c: Config, w: World, b: Block)
    requires Inv(c, w) && Settled(w) && w.rcv.lastAck == w.rcv.curr + 1 < w.snd.curr < w.rcv.lastAck + c.rcvBufSize - 1
    requires Data(w.snd.curr, b) in w.net
    ensures WellFormed(c, w)
    ensures Step(c, w, Deliver(Data(w.snd.curr, b), true)).rcv.loss == w.rcv.loss + Span(w.rcv.lastAck, w.snd.curr - 1)
  {
    hide DeliveredInv, HistoryInv, NetInv, WindowInv;
    assert SlotInv(c, w.rcv, w.blocks, w.snd.curr - w.rcv.lastAck);
    DeliverData(c, w, w.snd.curr, b, true);
  }

  // ----- when the lists are large enough -----

  /** What is outstanding always fits the list of twice the first window if and only if this condition holds. */
  lemma SpanFitsList(c: Config)
    requires c.Valid()
    ensures (forall w :: Reachable(c, w) ==> w.snd.curr + 1 - w.snd.lastDataAck <= 2 * c.InitialWindow()) <==>
            Min(c.rcvBufSize - 1, c.sndBufSize) <= 2 * c.InitialWindow()
  {
    hide Reachable, Inv;
    forall w | Reachable(c, w)
      ensures w.snd.curr + 1 - w.snd.lastDataAck <= Min(c.LargestWindow(), c.sndBufSize)
    {
      SpanBound(c, w);
    }
    var w := WidestSpan(c);
  }

  /** The receiver's list has flightFlagSize slots, and numbers that far apart would share one. */
  ghost predicate GapFits(c: Config, w: World) {
    forall m, n :: m in w.rcv.loss && n in w.rcv.loss ==> m - n < c.flightFlagSize
  }

  /** What is missing always fits the receiver's list if and only if this condition holds. */
  lemma GapFitsList(c: Config)
    requires c.Valid()
    ensures (forall w :: Reachable(c, w) ==> GapFits(c, w)) <==>
            Min(c.rcvBufSize - 1, c.sndBufSize) - 2 < c.flightFlagSize
  {
    hide Reachable, Inv;
    if Widest(c) - 2 < c.flightFlagSize {
      forall w | Reachable(c, w)
        ensures GapFits(c, w)
      {
        SpanBound(c, w);
        forall m, n | m in w.rcv.loss && n in w.rcv.loss
          ensures m - n < c.flightFlagSize
        {
          MissingPair(c, w, m, n);
        }
      }
    } else {
      var w := WidestGap(c);
      assert !GapFits(c, w);
    }
  }
}
