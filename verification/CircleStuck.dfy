/**
 When a connection on the circle can never deliver everything, whatever happens: the other half of the condition in
 CircleProgress, and a run that gets there.
 */
module CircleStuck {
  import opened Common
  import opened SeqNo
  import opened StreamRing
  import opened Protocol
  import opened ProtocolSafety
  import opened ProtocolRuns
  import opened ProtocolProgress
  import opened FlightSize
  import opened ReceiverHalf
  import opened Endpoints
  import opened CircleRuns
  import opened CircleProgress

  // ----- no full ACK is sent any more -----

  /** No number that the receiver can come to compares as newer than the last confirmed ACK. */
  ghost predicate Silent(w: World) {
    forall x :: Pending(w.rcv, x) && x <= SendLimit(w.snd) ==> !Newer(w.rcv, x)
  }

  /** The receiver has only moved on. */
  ghost predicate Since(r0: Receiver, r: Receiver) {
    && r0.curr <= r.curr && NextAck(r0) <= NextAck(r)
    && forall n :: n in r.loss ==> n in r0.loss || n > r0.curr
  }

  /** Since w0 no full ACK was sent or confirmed, so that the sender's limit has not moved. */
  ghost predicate Deaf(w0: World, w: World) {
    && w.rcv.lastAckAck == w0.rcv.lastAckAck && Since(w0.rcv, w.rcv)
    && (forall p :: p in w.net ==> !p.FullAck? && !p.Ack2?)
    && SendLimit(w.snd) <= SendLimit(w0.snd)
    && w0.blocks <= w.blocks
  }

  lemma NextStaysPending(r0: Receiver, r: Receiver)
    requires r.Valid() && Since(r0, r)
    ensures Pending(r0, NextAck(r))
  {
    NextAckBounds(r);
  }

  lemma AckStepDeaf(c: Config, w0: World, w: World, repeat: bool)
    requires CircleInv(c, w) && Silent(w0) && Deaf(w0, w)
    ensures w.rcv.Valid() && Deaf(w0, AckStep(w, repeat))
  {
    hide Inv, WithinTurn, NextAck, Wrap, SeqCmp, Pending;
    NotBroken(c, w);
    LessThanATurn(c, w);
    NextStaysPending(w0.rcv, w.rcv);
    SameNewer(w0.rcv, w.rcv, NextAck(w.rcv));
    assert !Newer(w.rcv, NextAck(w.rcv));
    assert Acked(w.rcv, NextAck(w.rcv)).loss == w.rcv.loss;
    SameNextAck(w.rcv, AckStep(w, repeat).rcv);
  }

  lemma DataDeaf(r0: Receiver, r: Receiver, n: int, b: Block)
    requires r.Valid() && Since(r0, r)
    ensures var (r', q) := ProcessData(r, n, b);
            && Since(r0, r') && r'.lastAckAck == r.lastAckAck && (q.Some? ==> q.value.Nak?)
  {
    hide ProcessData, AddData, Ring.Valid, NextAck;
    ProcessDataCases(r, n, b);
    if 0 <= n - r.lastAck < r.ring.Avail() {
      var ring1 := AddData(r.ring, n - r.lastAck, b).0;
      SameNextAck(r, r.(ring := ring1));
      DetectedSince(r, n, ring1);
    }
  }

  lemma DetectedSince(r: Receiver, n: int, ring1: Ring)
    requires r.Valid() && r.lastAck <= n
    ensures Since(r, Detected(r.(ring := ring1), n))
  {
    hide Ring.Valid;
  }

  /** The receiver has not moved, and the sender's limit has not risen. */
  lemma StillDeaf(w0: World, w: World, w': World)
    requires Deaf(w0, w) && w'.rcv.loss == w.rcv.loss && w'.rcv.curr == w.rcv.curr
    requires w'.rcv.lastAckAck == w.rcv.lastAckAck && SendLimit(w'.snd) <= SendLimit(w0.snd) && w.blocks <= w'.blocks
    requires forall p :: p in w'.net ==> p in w.net || (!p.FullAck? && !p.Ack2?)
    ensures Deaf(w0, w')
  {
    hide NextAck;
    SameNextAck(w.rcv, w'.rcv);
  }

  lemma PackLimit(s: Sender, cong: int)
    requires s.Valid()
    ensures SendLimit(PackData(s, cong).0) == SendLimit(s)
    ensures PackData(s, cong).1.Some? ==> PackData(s, cong).1.value.Data?
  {
  }

  lemma SenderDeaf(c: Config, w0: World, w: World, e: Event)
    requires CircleInv(c, w) && Deaf(w0, w) && (e.AppSend? || e.Pack? || e.Exp? || e.NakTimer? || e.Lose? || e.AppRecv?)
    ensures WellFormed(c, w) && Deaf(w0, Step(c, w, e))
  {
    hide Inv, WithinTurn, NextAck, ReadBuffer, Chunks, PackData;
    NotBroken(c, w);
    if e.Pack? { PackLimit(w.snd, e.cong); }
    StillDeaf(w0, w, Step(c, w, e));
  }

  lemma DeliveredDeaf(c: Config, w0: World, w: World, p: Packet, choice: bool)
    requires CircleInv(c, w) && Deaf(w0, w)
    ensures WellFormed(c, w) && Deaf(w0, Step(c, w, Deliver(p, choice)))
  {
    hide Inv, WithinTurn, NextAck, ProcessData, ProcessNak;
    NotBroken(c, w);
    match p
    case Data(n, b) => DataDeaf(w0.rcv, w.rcv, n, b);
    case Nak(ranges) => ReportsKeepWindow(w.snd, ranges);
    case _ =>
  }

  lemma {:induction false} ReportsKeepWindow(s: Sender, ranges: seq<Range>)
    ensures var s' := ProcessNak(s, ranges);
            s'.lastAck == s.lastAck && s'.window == s.window && s'.curr == s.curr
    decreases |ranges|
  {
    if ranges != [] {
      ReportsKeepWindow(ProcessRange(s, ranges[0]).0, ranges[1..]);
    }
  }

  lemma LiteStepDeaf(c: Config, w0: World, w: World)
    requires CircleInv(c, w) && Deaf(w0, w)
    ensures Deaf(w0, LiteStep(w))
  {
    hide Inv, WithinTurn, NextAck, Wrap;
  }

  lemma StepDeaf(c: Config, w0: World, w: World, e: Event)
    requires CircleInv(c, w) && Silent(w0) && Deaf(w0, w)
    ensures WellFormed(c, w) && Deaf(w0, CircleStep(c, w, e))
  {
    hide CircleInv, Silent, Deaf, Step, AckStep, LiteStep, Newer;
    CircleStepKeeps(c, w, e);
    match e
    case AckTimer(repeat) => AckStepDeaf(c, w0, w, repeat);
    case LiteAckTimer => LiteStepDeaf(c, w0, w);
    case Deliver(p, choice) => DeliveredDeaf(c, w0, w, p, choice);
    case _ => SenderDeaf(c, w0, w, e);
  }

  lemma {:induction false} RunDeaf(c: Config, w0: World, w: World, es: seq<Event>)
    requires CircleInv(c, w) && Silent(w0) && Deaf(w0, w)
    ensures Deaf(w0, CircleRun(c, w, es))
    decreases |es|
  {
    hide CircleInv, Silent, Deaf, CircleStep;
    if es != [] {
      CircleStepKeeps(c, w, es[0]);
      StepDeaf(c, w0, w, es[0]);
      RunDeaf(c, w0, CircleStep(c, w, es[0]), es[1..]);
    }
  }

  lemma DeafToItself(w: World)
    requires w.net == {}
    ensures Deaf(w, w)
  {
    hide NextAck;
  }

  // ----- what cannot be sent cannot be delivered -----

  lemma DeliveredBelowLimit(c: Config, w0: World, w: World)
    requires CircleInv(c, w0) && CircleInv(c, w) && Deaf(w0, w)
    ensures 0 <= SendLimit(w0.snd) - c.isn
    ensures SendLimit(w0.snd) - c.isn <= |w0.blocks| ==> w.delivered <= Flatten(w0.blocks[..SendLimit(w0.snd) - c.isn])
  {
    hide WithinTurn, NextAck, NetInv, SlotInv, CrossInv, SenderInv, WindowInv, Since;
    LessThanATurn(c, w0);
    LessThanATurn(c, w);
    NotBroken(c, w0);
    StartBelow(c, w0);
    var a, l := w.rcv.lastAck - c.isn, SendLimit(w0.snd) - c.isn;
    if l <= |w0.blocks| {
      assert w.blocks[..a] == w0.blocks[..l][..a];
      FlattenPrefix(w0.blocks[..l], a);
      assert w.delivered <= w.delivered + Unread(w.rcv.ring);
    }
  }

  lemma StartBelow(c: Config, w: World)
    requires Inv(c, w)
    ensures c.isn <= w.snd.lastDataAck <= w.snd.curr + 1
  {
  }

  lemma MoreBlocksMoreBytes(blocks: seq<Block>, k: nat)
    requires k < |blocks| && forall i :: 0 <= i < |blocks| ==> blocks[i] != []
    ensures |Flatten(blocks[..k])| < |Flatten(blocks)|
  {
    FlattenSnoc(blocks, k);
    FlattenPrefix(blocks, k + 1);
  }

  /** Where the condition does not hold, something accepted is never delivered, whatever happens from then on. */
  lemma NeverFinishes(c: Config, w: World, es: seq<Event>)
    requires CircleInv(c, w) && w.net == {} && !CanFinish(c, w)
    ensures |CircleRun(c, w, es).delivered| < |w.accepted|
  {
    hide WithinTurn, NextAck, NetInv, ReceiverInv, DeliveredInv, CrossInv, WindowInv, Newer, CircleRun, Pending, Deaf;
    var w', l := CircleRun(c, w, es), SendLimit(w.snd) - c.isn;
    DeafToItself(w);
    RunDeaf(c, w, w, es);
    DeliveredBelowLimit(c, w, w');
    MoreBlocksMoreBytes(w.blocks, l);
  }

  /** With no packet in flight, a connection can still deliver everything if and only if the condition holds. */
  lemma FinishesIff(c: Config, w: World)
    requires CircleInv(c, w) && w.net == {}
    ensures Finishes(c, w) <==> CanFinish(c, w)
  {
    hide CircleInv, CircleRun, CanFinish;
    if CanFinish(c, w) {
      CanFinishFinishes(c, w);
    } else if Finishes(c, w) {
      var es :| Quiet(es) && CircleRun(c, w, es).delivered == w.accepted;
      NeverFinishes(c, w, es);
    }
  }

  /** The receiver has read all that the sender may send, and the next ACK does not compare as newer. */
  ghost predicate Stuck(w: World) {
    && w.net == {} && Settled(w) && w.rcv.lastAck == w.snd.curr + 1 == SendLimit(w.snd)
    && !Newer(w.rcv, w.rcv.lastAck)
  }

  /** From there not one more byte is ever delivered. */
  lemma NothingMore(c: Config, w: World, es: seq<Event>)
    requires CircleInv(c, w) && Stuck(w)
    ensures CircleRun(c, w, es).delivered == w.delivered
  {
    hide WithinTurn, NextAck, NetInv, CrossInv, WindowInv, SlotInv, Newer, CircleRun, Deaf, SenderInv;
    var w', l := CircleRun(c, w, es), SendLimit(w.snd) - c.isn;
    StuckIsSilent(w);
    DeafToItself(w);
    RunDeaf(c, w, w, es);
    DeliveredBelowLimit(c, w, w');
    assert Unread(w.rcv.ring) == [];
    DeliveredOnlyGrows(c, w, es);
  }

  lemma StuckIsSilent(w: World)
    requires Stuck(w)
    ensures Silent(w)
  {
    hide Wrap, SeqCmp;
  }

  lemma {:induction false} DeliveredOnlyGrows(c: Config, w: World, es: seq<Event>)
    requires CircleInv(c, w)
    ensures w.delivered <= CircleRun(c, w, es).delivered
    decreases |es|
  {
    hide CircleInv, CircleStep;
    if es != [] {
      CircleStepKeeps(c, w, es[0]);
      DeliveredGrows(c, w, es[0]);
      DeliveredOnlyGrows(c, CircleStep(c, w, es[0]), es[1..]);
    }
  }

  lemma DeliveredGrows(c: Config, w: World, e: Event)
    requires CircleInv(c, w)
    ensures WellFormed(c, w) && w.delivered <= CircleStep(c, w, e).delivered
  {
    hide Inv, WithinTurn, Newer, FullAckStep, LiteAckStep, ProcessData, ProcessNak, PackData, SendFullAck;
    NotBroken(c, w);
  }

  // ----- a run that gets there -----

  ghost predicate OnCircle(c: Config, w: World)
    requires Sized(c)
  {
    exists es :: CircleFromStart(c, es) == w
  }

  lemma OnCircleInv(c: Config, w: World)
    requires Sized(c) && OnCircle(c, w)
    ensures CircleInv(c, w) && WellFormed(c, w) && !w.snd.broken
  {
    hide Inv, WithinTurn, CircleRun;
    var es :| CircleFromStart(c, es) == w;
    NotBroken(c, w);
  }

  lemma OnCircleStep(c: Config, w: World, e: Event)
    requires Sized(c) && OnCircle(c, w)
    ensures CircleInv(c, w) && WellFormed(c, w) && OnCircle(c, CircleStep(c, w, e))
  {
    hide CircleInv, CircleStep;
    OnCircleInv(c, w);
    var es :| CircleFromStart(c, es) == w;
    InitialCircleInv(c);
    CircleConcat(c, Initial(c), es, [e]);
    CircleStepKeeps(c, w, e);
    assert [e][1..] == [];
    assert CircleRun(c, w, [e]) == CircleRun(c, CircleStep(c, w, e), []);
    assert CircleFromStart(c, es + [e]) == CircleStep(c, w, e);
  }

  lemma OnCircleLeads(c: Config, w: World, w': World)
    requires Sized(c) && OnCircle(c, w) && CircleInv(c, w) && Leads(c, w, w')
    ensures OnCircle(c, w')
  {
    hide CircleInv;
    var es :| CircleFromStart(c, es) == w;
    var fs :| Quiet(fs) && CircleRun(c, w, fs) == w';
    InitialCircleInv(c);
    CircleConcat(c, Initial(c), es, fs);
    assert CircleFromStart(c, es + fs) == w';
  }

  lemma {:induction false} SendMore(c: Config, w: World, k: nat) returns (w': World)
    requires Sized(c) && OnCircle(c, w) && |w.snd.buf| + k <= c.sndBufSize
    ensures OnCircle(c, w') && CircleInv(c, w') && |w'.blocks| == |w.blocks| + k
    ensures w'.snd == w.snd.(buf := w'.snd.buf) && w'.rcv == w.rcv && w'.net == w.net
    ensures |w'.snd.buf| == |w.snd.buf| + k
    decreases k
  {
    hide CircleInv, OnCircle, Step;
    if k == 0 {
      w' := w;
      OnCircleInv(c, w);
    } else {
      var w0 := SendMore(c, w, k - 1);
      OnCircleInv(c, w0);
      OnCircleStep(c, w0, AppSend([0]));
      w' := Step(c, w0, AppSend([0]));
      OneSend(c, w0);
      OnCircleInv(c, w');
    }
  }

  /** All packets in flight are lost. */
  lemma {:induction false} LoseAll(c: Config, w: World) returns (w': World)
    requires Sized(c) && OnCircle(c, w)
    ensures OnCircle(c, w') && w' == w.(net := {})
    decreases |w.net|
  {
    hide CircleInv, OnCircle;
    if w.net == {} {
      w' := w;
    } else {
      var p :| p in w.net;
      OnCircleInv(c, w);
      OnCircleStep(c, w, Lose(p));
      var w1 := Step(c, w, Lose(p));
      assert w1 == w.(net := w.net - {p});
      w' := LoseAll(c, w1);
    }
  }

  /** Nothing but Lose takes a packet away. */
  lemma {:induction false} QuietKeepsNet(c: Config, w: World, es: seq<Event>)
    requires CircleInv(c, w) && Quiet(es)
    ensures w.net <= CircleRun(c, w, es).net
    decreases |es|
  {
    hide CircleInv, CircleStep;
    if es != [] {
      CircleStepKeeps(c, w, es[0]);
      StepKeepsNet(c, w, es[0]);
      QuietKeepsNet(c, CircleStep(c, w, es[0]), es[1..]);
    }
  }

  lemma StepKeepsNet(c: Config, w: World, e: Event)
    requires CircleInv(c, w) && !e.Lose?
    ensures WellFormed(c, w) && w.net <= CircleStep(c, w, e).net
  {
    hide Inv, WithinTurn, Newer, FullAckStep, LiteAckStep, ProcessData, ProcessNak, PackData, SendFullAck, ReadBuffer;
    NotBroken(c, w);
  }

  lemma LeadsKeepsNet(c: Config, w: World, w': World)
    requires CircleInv(c, w) && Leads(c, w, w')
    ensures w.net <= w'.net
  {
    hide CircleInv;
    var es :| Quiet(es) && CircleRun(c, w, es) == w';
    QuietKeepsNet(c, w, es);
  }

  // ----- everything is confirmed up to a number -----

  /** All that was ever sent, up to a, is acknowledged and confirmed. */
  ghost predicate UpTo(c: Config, w: World, a: int) {
    && Settled(w) && w.rcv.lastAck == w.rcv.lastAckAck == a == c.isn + |w.blocks| && w.snd.loss == {}
  }

  lemma UpToOpens(c: Config, w: World, a: int)
    requires Inv(c, w) && UpTo(c, w, a)
    ensures w.snd.lastDataAck == w.snd.lastAck == w.snd.curr + 1 == a && w.snd.window >= 2 && w.snd.buf == []
  {
    hide NextAck, NetInv, DeliveredInv, HistoryInv;
    AllConfirmed(c, w);
    NextAckBounds(w.rcv);
  }

  /** One packet goes through, settled and drained; what acknowledges it is left to the caller. */
  lemma OneThrough(c: Config, w: World) returns (w': World)
    requires Sized(c) && OnCircle(c, w) && |w.snd.buf| < c.sndBufSize
    requires Settled(w) && w.rcv.lastAck == w.snd.curr + 1 == c.isn + |w.blocks| < SendLimit(w.snd)
    ensures OnCircle(c, w') && CircleInv(c, w') && Settled(w') && w.net <= w'.net && w'.snd.loss == {}
    ensures w'.rcv.lastAckAck == w.rcv.lastAckAck && w'.snd.lastDataAck == w.snd.lastDataAck
    ensures SendLimit(w'.snd) == SendLimit(w.snd)
    ensures w'.rcv.lastAck == w'.snd.curr + 1 == c.isn + |w'.blocks| == w.rcv.lastAck + 1
  {
    hide Inv, WithinTurn, OnCircle, Leads, NextAck, Reaches;
    OnCircleInv(c, w);
    var w1 := SendMore(c, w, 1);
    SameNextAck(w.rcv, w1.rcv);
    var w2 := OneMoreOnCircle(c, w1);
    OnCircleLeads(c, w1, w2);
    ArrivedNext(c, w1, w2);
    w' := DrainLoss(c, w2);
    LeadsPlainly(c, w2, w');
    OnCircleLeads(c, w2, w');
    LeadsKeepsNet(c, w1, w2);
    LeadsKeepsNet(c, w2, w');
  }

  lemma ArrivedNext(c: Config, w: World, w': World)
    requires CircleInv(c, w) && CircleInv(c, w') && Settled(w) && Settled(w') && Moved(w.rcv, w'.rcv, w.rcv.lastAck)
    requires w.rcv.lastAck == w.snd.curr + 1 == c.isn + |w.blocks| - 1 && SameMatter(w, w')
    ensures w'.rcv.lastAck == w.rcv.lastAck + 1 == w'.snd.curr + 1
  {
    hide HistoryInv, DeliveredInv, NetInv, WithinTurn;
    NextAckBounds(w.rcv);
    NextAckBounds(w'.rcv);
  }

  lemma {:induction false} ConfirmUpTo(c: Config, a: int) returns (w: World)
    requires Sized(c) && c.sndBufSize > 0 && c.isn <= a
    ensures OnCircle(c, w) && CircleInv(c, w) && UpTo(c, w, a)
    decreases a - c.isn
  {
    hide CircleInv, OnCircle, UpTo, Leads, Reaches;
    if a == c.isn {
      w := Initial(c);
      StartUpTo(c);
    } else {
      var w0 := ConfirmUpTo(c, a - 1);
      w := ConfirmOneMore(c, w0, a - 1);
    }
  }

  lemma StartUpTo(c: Config)
    requires Sized(c)
    ensures OnCircle(c, Initial(c)) && CircleInv(c, Initial(c)) && UpTo(c, Initial(c), c.isn)
  {
    hide CircleInv;
    InitialCircleInv(c);
    assert CircleFromStart(c, []) == Initial(c);
  }

  lemma ConfirmOneMore(c: Config, w: World, a: int) returns (w': World)
    requires Sized(c) && c.sndBufSize > 0 && OnCircle(c, w) && CircleInv(c, w) && UpTo(c, w, a)
    ensures OnCircle(c, w') && CircleInv(c, w') && UpTo(c, w', a + 1)
  {
    hide Inv, WithinTurn, OnCircle, Leads, Reaches, NextAck;
    UpToOpens(c, w, a);
    var w1 := OneThrough(c, w);
    NearIsNewer(w1.rcv, w1.rcv.lastAck);
    var w2 := ConfirmOnCircle(c, w1);
    OnCircleLeads(c, w1, w2);
    w' := DrainLoss(c, w2);
    LeadsPlainly(c, w2, w');
    OnCircleLeads(c, w2, w');
  }

  // ----- packets go through, fully acknowledged but not confirmed -----

  /** n packets past a, the last confirmed ACK, have gone through one by one. */
  ghost predicate Unconfirmed(c: Config, w: World, a: int, n: nat) {
    && Open(w) && w.rcv.lastAckAck == a && w.rcv.lastAck == a + n == c.isn + |w.blocks|
    && (n > 0 ==> w.snd.window == c.rcvBufSize - 1)
  }

  lemma {:induction false} ByOne(c: Config, a: int, n: nat) returns (w: World)
    requires Sized(c) && c.sndBufSize > 0 && c.isn <= a && n < SEQ_NO_TH
    ensures OnCircle(c, w) && CircleInv(c, w) && Unconfirmed(c, w, a, n)
    decreases n
  {
    hide Inv, WithinTurn, OnCircle, Leads, Reaches;
    if n == 0 {
      w := ConfirmUpTo(c, a);
      UpToOpens(c, w, a);
    } else {
      var w0 := ByOne(c, a, n - 1);
      NothingWaits(c, w0);
      var w1 := OneThrough(c, w0);
      w := AckedInFull(c, w1, a, n);
    }
  }

  lemma AckedInFull(c: Config, w: World, a: int, n: nat) returns (w': World)
    requires Sized(c) && OnCircle(c, w) && CircleInv(c, w) && Settled(w) && 0 < n < SEQ_NO_TH && w.snd.loss == {}
    requires w.rcv.lastAckAck == a && w.rcv.lastAck == w.snd.curr + 1 == a + n == c.isn + |w.blocks|
    ensures OnCircle(c, w') && CircleInv(c, w') && Unconfirmed(c, w', a, n)
  {
    hide Inv, WithinTurn, OnCircle, Step, Leads, NextAck, Reaches, AckStep, Newer;
    var k, avail := w.rcv.ackSeq + 1, Max(w.rcv.ring.Avail(), 2);
    var w1 := SendsFullAck(c, w);
    RingSize(c, w1);
    FullAckOpens(c, w1, k, avail);
    OnCircleStep(c, w1, Deliver(FullAck(k, w1.rcv.lastAck, avail), false));
    NotBroken(c, w1);
    w' := Step(c, w1, Deliver(FullAck(k, w1.rcv.lastAck, avail), false));
    OnCircleInv(c, w');
  }

  lemma SendsFullAck(c: Config, w: World) returns (w': World)
    requires Sized(c) && OnCircle(c, w) && CircleInv(c, w) && Settled(w)
    requires 0 < w.rcv.lastAck - w.rcv.lastAckAck < SEQ_NO_TH
    ensures OnCircle(c, w') && CircleInv(c, w') && Settled(w') && w'.snd == w.snd && w'.blocks == w.blocks
    ensures w'.rcv.lastAck == w.rcv.lastAck && w'.rcv.lastAckAck == w.rcv.lastAckAck && w'.rcv.ring == w.rcv.ring
    ensures FullAck(w.rcv.ackSeq + 1, w.rcv.lastAck, Max(w.rcv.ring.Avail(), 2)) in w'.net
  {
    hide Inv, WithinTurn, OnCircle, NextAck, AckStep, Newer;
    NearIsNewer(w.rcv, w.rcv.lastAck);
    NewerIsSent(c, w);
    OnCircleStep(c, w, AckTimer(true));
    NotBroken(c, w);
    w' := AckStep(w, true);
    SameNextAck(w.rcv, w'.rcv);
    OnCircleInv(c, w');
  }

  // ----- full ACKs arrive behind lite ACKs, so that they free blocks but no window -----

  /** One packet is not acknowledged in full, although a lite ACK has covered it; l is the sender's limit. */
  ghost predicate Trailing(c: Config, w: World, a: int, q: int, l: int) {
    && Settled(w) && w.rcv.lastAckAck == a && w.snd.loss == {}
    && w.rcv.lastAck == w.snd.curr + 1 == c.isn + |w.blocks| == q + 1 && w.snd.lastDataAck == q
    && SendLimit(w.snd) == l
  }

  lemma OneBlock(c: Config, w: World)
    requires Inv(c, w)
    ensures |w.snd.buf| == c.isn + |w.blocks| - w.snd.lastDataAck
  {
  }

  lemma {:induction false} Trail(c: Config, a: int, l: int, q: int) returns (w: World)
    requires Sized(c) && c.sndBufSize >= 2 && c.isn <= a && l == a + SEQ_NO_TH && l - c.rcvBufSize + 1 <= q < l
    ensures OnCircle(c, w) && CircleInv(c, w) && Trailing(c, w, a, q, l)
    decreases q - (l - c.rcvBufSize)
  {
    hide Inv, WithinTurn, OnCircle, Trailing;
    if q == l - c.rcvBufSize + 1 {
      w := StartTrailing(c, a, l);
    } else {
      var w0 := Trail(c, a, l, q - 1);
      w := TrailOn(c, w0, a, q - 1, l);
    }
  }

  lemma StartTrailing(c: Config, a: int, l: int) returns (w: World)
    requires Sized(c) && c.sndBufSize >= 2 && c.isn <= a && l == a + SEQ_NO_TH
    ensures OnCircle(c, w) && CircleInv(c, w) && Trailing(c, w, a, l - c.rcvBufSize + 1, l)
  {
    hide Inv, WithinTurn, OnCircle, NextAck;
    var w0 := ByOne(c, a, SEQ_NO_TH - c.rcvBufSize + 1);
    NothingWaits(c, w0);
    w := OneThrough(c, w0);
  }

  lemma TrailOn(c: Config, w: World, a: int, q: int, l: int) returns (w': World)
    requires Sized(c) && c.sndBufSize >= 2 && OnCircle(c, w) && CircleInv(c, w) && Trailing(c, w, a, q, l)
    requires a <= q && q + 1 < l == a + SEQ_NO_TH
    ensures OnCircle(c, w') && CircleInv(c, w') && Trailing(c, w', a, q + 1, l)
  {
    hide Inv, WithinTurn, OnCircle, Step, Leads, NextAck;
    var k, avail := w.rcv.ackSeq + 1, Max(w.rcv.ring.Avail(), 2);
    var w1 := SendsFullAck(c, w);
    OneBlock(c, w1);
    var w2 := OneThrough(c, w1);
    var w3 := LiteAckOpens(c, w2);
    OnCircleLeads(c, w2, w3);
    LeadsKeepsNet(c, w2, w3);
    LateFullAck(c, w3, k, q + 1, avail);
    OnCircleStep(c, w3, Deliver(FullAck(k, q + 1, avail), false));
    NotBroken(c, w3);
    w' := Step(c, w3, Deliver(FullAck(k, q + 1, avail), false));
    OnCircleInv(c, w');
  }

  /** A full ACK that comes behind a lite one frees the blocks it acknowledges and leaves the window as it is. */
  lemma LateFullAck(c: Config, w: World, k: nat, a: int, avail: int)
    requires Inv(c, w) && FullAck(k, a, avail) in w.net && w.snd.lastDataAck < a < w.snd.lastAck && w.snd.loss == {}
    ensures WellFormed(c, w)
    ensures var w1 := Step(c, w, Deliver(FullAck(k, a, avail), false));
            && w1 == w.(snd := w1.snd) && w1.snd.lastDataAck == a && w1.snd.loss == {}
            && w1.snd.lastAck == w.snd.lastAck && w1.snd.window == w.snd.window && w1.snd.curr == w.snd.curr
  {
    hide HistoryInv, ReceiverInv, DeliveredInv, CrossInv, NetInv;
    NotBroken(c, w);
    assert Above({}, a - 1) == {};
  }

  // ----- stuck -----

  /** A whole number of turns, not below n. */
  lemma TurnAfter(n: int) returns (a: int)
    ensures n <= a && Wrap(a) == 0
  {
    a := (n / CIRCLE + 1) * CIRCLE;
    WrapUnique(a, 0, n / CIRCLE + 1);
  }

  /**
   A run on the circle after which the connection is stuck for good with data still to be sent: no ACK2 has arrived
   for half a turn.
   */
  lemma CanGetStuck(c: Config) returns (es: seq<Event>)
    requires Sized(c) && c.sndBufSize >= 2
    ensures var w := CircleFromStart(c, es);
            && Stuck(w) && !CanFinish(c, w) && SendLimit(w.snd) < c.isn + |w.blocks|
            && NextAck(w.rcv) - w.rcv.lastAckAck == SEQ_NO_TH
  {
    hide Inv, WithinTurn, Leads, NextAck, CircleRun, Wrap, SeqCmp;
    var a := TurnAfter(c.isn);
    var l := a + SEQ_NO_TH;
    var w0 := Trail(c, a, l, l - 1);
    OneBlock(c, w0);
    var w1 := SendMore(c, w0, 1);
    var w2 := LoseAll(c, w1);
    OnCircleInv(c, w2);
    SameNextAck(w0.rcv, w2.rcv);
    HalfTurnIsOlder(a);
    assert !Newer(w2.rcv, w2.rcv.lastAck);
    StuckThere(c, w2);
    es :| CircleFromStart(c, es) == w2;
  }

  /** From the start of a turn, half a turn on already compares as older. */
  lemma HalfTurnIsOlder(a: int)
    requires Wrap(a) == 0
    ensures SeqCmp(Wrap(a + SEQ_NO_TH), Wrap(a)) < 0
  {
    WrapUnique(a + SEQ_NO_TH, SEQ_NO_TH, a / CIRCLE);
  }

  /** With a sending buffer as large as the receive buffer it also gets more than half a turn past the last ACK2. */
  lemma CanGetFar(c: Config) returns (es: seq<Event>)
    requires Sized(c) && c.sndBufSize >= c.rcvBufSize
    ensures var w := CircleFromStart(c, es);
            && Stuck(w) && !CanFinish(c, w) && SendLimit(w.snd) < c.isn + |w.blocks|
            && CIRCLE - SEQ_NO_TH < NextAck(w.rcv) - w.rcv.lastAckAck < CIRCLE
  {
    hide Inv, WithinTurn, Leads, NextAck, CircleRun, Wrap, SeqCmp;
    var w0 := ByOne(c, c.isn, SEQ_NO_TH - 1);
    NothingWaits(c, w0);
    var w1 := SendMore(c, w0, c.rcvBufSize);
    SameNextAck(w0.rcv, w1.rcv);
    LimitIsPending(c, w1);
    var w2 := GoTo(c, w1, SendLimit(w1.snd));
    OnCircleLeads(c, w1, w2);
    var w3 := LoseAll(c, w2);
    OnCircleInv(c, w3);
    CmpFar(w3.rcv.lastAck, w3.rcv.lastAckAck);
    StuckThere(c, w3);
    es :| CircleFromStart(c, es) == w3;
  }

  lemma LimitIsPending(c: Config, w: World)
    requires CircleInv(c, w)
    ensures Pending(w.rcv, SendLimit(w.snd))
  {
    hide Inv, WithinTurn;
    LessThanATurn(c, w);
  }

  lemma StuckThere(c: Config, w: World)
    requires CircleInv(c, w) && Settled(w) && w.net == {} && w.rcv.lastAck == SendLimit(w.snd) < c.isn + |w.blocks|
    requires !Newer(w.rcv, w.rcv.lastAck)
    ensures Stuck(w) && !CanFinish(c, w)
  {
    hide Inv, WithinTurn, Wrap, SeqCmp;
    LessThanATurn(c, w);
    StuckIsSilent(w);
  }

  // ----- which connections can get stuck -----

  lemma {:induction false} BufferOnCircle(c: Config, w: World, es: seq<Event>)
    requires CircleInv(c, w) && |w.snd.buf| <= c.sndBufSize
    ensures |CircleRun(c, w, es).snd.buf| <= c.sndBufSize
    decreases |es|
  {
    hide CircleInv, CircleStep;
    if es != [] {
      CircleStepKeeps(c, w, es[0]);
      BufferStep(c, w, es[0]);
      BufferOnCircle(c, CircleStep(c, w, es[0]), es[1..]);
    }
  }

  lemma BufferStep(c: Config, w: World, e: Event)
    requires CircleInv(c, w) && |w.snd.buf| <= c.sndBufSize
    ensures WellFormed(c, w) && |CircleStep(c, w, e).snd.buf| <= c.sndBufSize
  {
    hide Inv, WithinTurn, Newer, FullAckStep, LiteAckStep, Step;
    NotBroken(c, w);
    StepBuffer(c, w, e);
  }

  lemma OneBlockFinishes(c: Config, w: World)
    requires CircleInv(c, w) && |w.snd.buf| <= 1
    ensures CanFinish(c, w)
  {
    hide NextAck, ReceiverInv, DeliveredInv, NetInv, HistoryInv;
  }

  /** Some run without packets in flight cannot finish any more if and only if two blocks fit the sending buffer. */
  lemma GetsStuckIff(c: Config)
    requires Sized(c)
    ensures (exists es :: CircleFromStart(c, es).net == {} && !Finishes(c, CircleFromStart(c, es))) <==>
            c.sndBufSize >= 2
  {
    hide CircleInv, CircleRun, CanFinish;
    if c.sndBufSize >= 2 {
      var es := CanGetStuck(c);
      FinishesIff(c, CircleFromStart(c, es));
    } else {
      forall es | CircleFromStart(c, es).net == {}
        ensures Finishes(c, CircleFromStart(c, es))
      {
        InitialCircleInv(c);
        BufferOnCircle(c, Initial(c), es);
        OneBlockFinishes(c, CircleFromStart(c, es));
        FinishesIff(c, CircleFromStart(c, es));
      }
    }
  }
}
