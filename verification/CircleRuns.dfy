/**
 Runs of a connection whose receiver compares acknowledgements on the circle of 31-bit numbers, as the code does.
 The last confirmed ACK may lag behind without bound while no ACK2 arrives, so these comparisons need not come out
 as on unbounded numbers; all others do, for every packet that is less than half the circle old.
 */
module CircleRuns {
  import opened Common
  import opened SeqNo
  import opened StreamRing
  import opened Protocol
  import opened ProtocolSafety
  import opened ProtocolRuns
  import opened ReceiverHalf
  import opened Endpoints

  /** The number compares as newer than the last confirmed ACK. */
  ghost predicate Newer(r: Receiver, a: int) {
    SeqCmp(Wrap(a), Wrap(r.lastAckAck)) > 0
  }

  /** What the ACK timer does to the connection, as the receiver's comparisons decide it. */
  ghost function AckStep(w: World, repeat: bool): World
    requires w.rcv.Valid()
  {
    w.(rcv := FullAckStep(w.rcv, repeat).0, net := Post(w.net, FullAckStep(w.rcv, repeat).1))
  }

  ghost function LiteStep(w: World): World {
    w.(net := Post(w.net, LiteAckStep(w.rcv)))
  }

  /** One atomic step: sending ACKs and taking ACK2s is decided on the circle. */
  ghost function CircleStep(c: Config, w: World, e: Event): World
    requires WellFormed(c, w)
  {
    if w.snd.broken then w else
    match e
    case AckTimer(repeat) => AckStep(w, repeat)
    case LiteAckTimer => LiteStep(w)
    case Deliver(Ack2(k), _) =>
      if k in w.rcv.ackWindow && Newer(w.rcv, w.rcv.ackWindow[k]) then Step(c, w, e) else w
    case _ => Step(c, w, e)
  }

  /** No acknowledged number is so far past the last confirmed one that it would have compared as older. */
  ghost predicate WithinTurn(w: World) {
    && w.snd.lastDataAck - w.rcv.lastAckAck <= CIRCLE - SEQ_NO_TH
    && forall k :: k in w.rcv.ackWindow ==> w.rcv.ackWindow[k] - w.rcv.lastAckAck <= CIRCLE - SEQ_NO_TH
  }

  ghost predicate CircleInv(c: Config, w: World) {
    Sized(c) && Inv(c, w) && WithinTurn(w)
  }

  /** The sender has sent, or may send without a further full ACK, the numbers below this one. */
  function SendLimit(s: Sender): int {
    Max(s.curr + 1, s.lastAck + s.window)
  }

  // ----- how far behind the last confirmed ACK can be -----

  /** The next ACK, and whatever the sender may still send, is less than a whole turn past the last confirmed ACK. */
  lemma LessThanATurn(c: Config, w: World)
    requires CircleInv(c, w)
    ensures w.rcv.lastAckAck <= w.rcv.lastAck <= NextAck(w.rcv) <= w.rcv.curr + 1 <= w.snd.curr + 1 <= SendLimit(w.snd)
    ensures SendLimit(w.snd) <= w.snd.lastDataAck + c.LargestWindow() && c.LargestWindow() < SEQ_NO_TH
    ensures SendLimit(w.snd) - w.rcv.lastAckAck < CIRCLE
  {
    hide HistoryInv, DeliveredInv, NetInv, NextAck;
    NextAckBounds(w.rcv);
  }

  lemma NewerIsAhead(a: int, b: int)
    requires 0 <= a - b < CIRCLE && SeqCmp(Wrap(a), Wrap(b)) > 0
    ensures 0 < a - b <= CIRCLE - SEQ_NO_TH
  {
    hide Wrap, SeqCmp;
    CmpSelf(Wrap(a));
    if a - b > CIRCLE - SEQ_NO_TH { CmpFar(a, b); }
  }

  lemma NearIsNewer(r: Receiver, a: int)
    requires 0 < a - r.lastAckAck < SEQ_NO_TH
    ensures Newer(r, a)
  {
    hide Wrap, SeqCmp;
    CmpExact(a, r.lastAckAck);
  }

  // ----- every step keeps the invariant -----

  lemma AckStepKeeps(c: Config, w: World, repeat: bool)
    requires Inv(c, w)
    ensures WellFormed(c, w) && Inv(c, AckStep(w, repeat))
    ensures Confirmable(w.rcv, repeat) ==> AckStep(w, repeat) == Step(c, w, AckTimer(repeat))
  {
    hide Inv, FullAckStep, Protocol.SendFullAck, Confirmable;
    InvWellFormed(c, w);
    FullAckExact(w.rcv, repeat);
    if FullAckStep(w.rcv, repeat) == Protocol.SendFullAck(w.rcv, repeat) {
      StepKeeps(c, w, AckTimer(repeat));
    } else {
      AckMoveKeeps(c, w);
      assert Post(w.net, None) == w.net && w.(rcv := w.rcv) == w;
    }
  }

  lemma AckMoveKeeps(c: Config, w: World)
    requires Inv(c, w)
    ensures w.rcv.Valid() && w.rcv.lastAck <= NextAck(w.rcv)
    ensures w.rcv.ring.dataSize + NextAck(w.rcv) - w.rcv.lastAck < |w.rcv.ring.slots|
    ensures Inv(c, w.(rcv := Acked(w.rcv, NextAck(w.rcv))))
  {
    hide HistoryInv, WindowInv, NetInv, NextAck;
    NextAckBounds(w.rcv);
    AckKeepsReceiver(c, w.rcv, w.blocks, NextAck(w.rcv));
    AckKeepsDelivered(c, w.rcv, w.blocks, w.delivered, NextAck(w.rcv));
    AckedMoves(c, w, NextAck(w.rcv));
  }

  lemma AckedMoves(c: Config, w: World, a: int)
    requires Inv(c, w) && a == NextAck(w.rcv) && w.rcv.lastAck <= a
        && w.rcv.ring.dataSize + a - w.rcv.lastAck < |w.rcv.ring.slots|
    requires ReceiverInv(c, Acked(w.rcv, a), w.blocks) && DeliveredInv(c, Acked(w.rcv, a), w.blocks, w.delivered)
    requires NextAck(Acked(w.rcv, a)) == a
    ensures Inv(c, w.(rcv := Acked(w.rcv, a)))
  {
    hide HistoryInv, SenderInv, WindowInv, ReceiverInv, DeliveredInv, NetInv, NextAck;
    ReceiverMoved(c, w, Acked(w.rcv, a), None);
  }

  lemma LiteStepKeeps(c: Config, w: World)
    requires Inv(c, w)
    ensures Inv(c, LiteStep(w)) && WellFormed(c, w)
    ensures LiteAckStep(w.rcv) == Protocol.SendLiteAck(w.rcv) ==> LiteStep(w) == Step(c, w, LiteAckTimer)
  {
    hide Inv, NextAck, Wrap;
    InvWellFormed(c, w);
    StepKeeps(c, w, LiteAckTimer);
    if LiteAckStep(w.rcv) != Protocol.SendLiteAck(w.rcv) {
      assert w.(net := w.net) == w;
    }
  }

  /** Only numbers that compare as newer enter the window of sent ACKs. */
  lemma AckStepWithinTurn(c: Config, w: World, repeat: bool)
    requires CircleInv(c, w)
    ensures w.rcv.Valid() && WithinTurn(AckStep(w, repeat))
  {
    hide Inv, NextAck, Wrap, SeqCmp;
    InvWellFormed(c, w);
    LessThanATurn(c, w);
    if FullAckStep(w.rcv, repeat).1.Some? {
      NewerIsAhead(NextAck(w.rcv), w.rcv.lastAckAck);
    }
  }

  lemma StepWithinTurn(c: Config, w: World, e: Event)
    requires CircleInv(c, w) && !e.AckTimer?
    ensures WellFormed(c, w) && WithinTurn(Step(c, w, e))
  {
    hide HistoryInv, SenderInv, WindowInv, ReceiverInv, DeliveredInv, CrossInv, ProcessData, ProcessNak, ReadBuffer;
    InvWellFormed(c, w);
    match e
    case Deliver(Nak(ranges), _) => ReportsKeepAcks(w.snd, ranges);
    case Deliver(Data(n, b), _) => ReportOfData(w.rcv, n, b);
    case Deliver(FullAck(k, a, avail), _) =>
      if e.packet in w.net { assert PacketInv(c, w.snd, w.rcv, w.blocks, e.packet); }
    case _ =>
  }

  lemma CircleStepKeeps(c: Config, w: World, e: Event)
    requires CircleInv(c, w)
    ensures WellFormed(c, w) && CircleInv(c, CircleStep(c, w, e))
  {
    hide Inv, Step, WithinTurn, FullAckStep, LiteAckStep, Newer;
    InvWellFormed(c, w);
    StepKeeps(c, w, e);
    if e.AckTimer? {
      AckStepKeeps(c, w, e.repeat);
      AckStepWithinTurn(c, w, e.repeat);
    } else if e.LiteAckTimer? {
      LiteStepKeeps(c, w);
      SameMarks(w, LiteStep(w));
    } else {
      StepWithinTurn(c, w, e);
    }
  }

  lemma SameMarks(w: World, w': World)
    requires WithinTurn(w) && w'.snd == w.snd && w'.rcv == w.rcv
    ensures WithinTurn(w')
  {
  }

  /** While the last confirmed ACK is less than half the circle behind, the circle changes nothing. */
  lemma CircleIsProtocol(c: Config, w: World, e: Event)
    requires CircleInv(c, w) && NextAck(w.rcv) - w.rcv.lastAckAck < SEQ_NO_TH
    ensures WellFormed(c, w) && CircleStep(c, w, e) == Step(c, w, e)
  {
    hide HistoryInv, SenderInv, WindowInv, ReceiverInv, DeliveredInv, NetInv, NextAck, Wrap, SeqCmp, FullAckStep;
    InvWellFormed(c, w);
    LessThanATurn(c, w);
    match e
    case AckTimer(repeat) =>
      NearIsConfirmable(w.rcv, repeat);
      AckStepKeeps(c, w, repeat);
    case LiteAckTimer =>
      WrapDifference(NextAck(w.rcv), w.rcv.lastAckAck);
      LiteAckExact(w.rcv);
      LiteStepKeeps(c, w);
    case Deliver(Ack2(k), _) =>
      if k in w.rcv.ackWindow && w.rcv.ackWindow[k] > w.rcv.lastAckAck {
        NearIsNewer(w.rcv, w.rcv.ackWindow[k]);
      }
    case _ =>
  }

  // ----- runs -----

  ghost function CircleRun(c: Config, w: World, es: seq<Event>): (w': World)
    requires CircleInv(c, w)
    ensures CircleInv(c, w')
    decreases |es|
  {
    if es == [] then w
    else
      CircleStepKeeps(c, w, es[0]);
      CircleRun(c, CircleStep(c, w, es[0]), es[1..])
  }

  lemma {:induction false} CircleConcat(c: Config, w: World, es: seq<Event>, fs: seq<Event>)
    requires CircleInv(c, w)
    ensures CircleRun(c, w, es + fs) == CircleRun(c, CircleRun(c, w, es), fs)
    decreases |es|
  {
    hide CircleInv, CircleStep;
    if es == [] {
      assert es + fs == fs;
    } else {
      CircleStepKeeps(c, w, es[0]);
      assert (es + fs)[1..] == es[1..] + fs;
      CircleConcat(c, CircleStep(c, w, es[0]), es[1..], fs);
    }
  }

  lemma InitialCircleInv(c: Config)
    requires Sized(c)
    ensures CircleInv(c, Initial(c))
  {
    hide Inv;
    InitialInv(c);
  }

  ghost function CircleFromStart(c: Config, es: seq<Event>): (w: World)
    requires Sized(c)
    ensures CircleInv(c, w)
  {
    InitialCircleInv(c);
    CircleRun(c, Initial(c), es)
  }

  /** On the circle, too, recv() has returned a prefix of what send() accepted, and the sender is not broken. */
  lemma SafeOnCircle(c: Config, es: seq<Event>)
    requires Sized(c)
    ensures var w := CircleFromStart(c, es);
            && w.delivered <= w.accepted && !w.snd.broken
            && 0 <= NextAck(w.rcv) - w.rcv.lastAckAck < CIRCLE
  {
    hide Inv, CircleRun;
    var w := CircleFromStart(c, es);
    PrefixDelivered(c, w);
    InvWellFormed(c, w);
    LessThanATurn(c, w);
  }
}
