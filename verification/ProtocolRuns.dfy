/** The theorems about whole runs of a connection. */
module ProtocolRuns {
  import opened Common
  import opened StreamRing
  import opened Protocol
  import opened ProtocolSafety

  /** The world after a sequence of events. */
  ghost function Run(c: Config, w: World, es: seq<Event>): (w': World)
    requires Inv(c, w)
    ensures Inv(c, w')
    decreases |es|
  {
    if es == [] then w
    else
      StepKeeps(c, w, es[0]);
      Run(c, Step(c, w, es[0]), es[1..])
  }

  lemma InitialInv(c: Config)
    requires c.Valid()
    ensures Inv(c, Initial(c))
  {
    hide ReceiverInv, SenderInv, DeliveredInv, HistoryInv, WindowInv, CrossInv, NetInv;
    NothingSent(c);
    NothingReceived(c);
    NothingInFlight(c);
  }

  lemma NothingInFlight(c: Config)
    ensures CrossInv(c, InitialSender(c), InitialReceiver(c)) && NetInv(c, InitialSender(c), InitialReceiver(c), [], {})
  {
  }

  lemma NothingSent(c: Config)
    requires c.Valid()
    ensures HistoryInv(c, [], []) && SenderInv(c, InitialSender(c), []) && WindowInv(c, InitialSender(c))
  {
  }

  lemma NothingReceived(c: Config)
    requires c.Valid()
    ensures ReceiverInv(c, InitialReceiver(c), []) && InitialReceiver(c).Valid()
    ensures DeliveredInv(c, InitialReceiver(c), [], [])
  {
    var r := InitialReceiver(c);
    var none: seq<Block> := [];
    assert Flatten(none[..0]) == [];
    forall i | 0 <= i < |r.ring.slots|
      ensures SlotInv(c, r, [], i)
    {
    }
  }

  ghost function RunFromStart(c: Config, es: seq<Event>): (w: World)
    requires c.Valid()
    ensures Inv(c, w)
  {
    InitialInv(c);
    Run(c, Initial(c), es)
  }

  lemma {:induction false} RunConcat(c: Config, w: World, es: seq<Event>, fs: seq<Event>)
    requires Inv(c, w)
    ensures Run(c, w, es + fs) == Run(c, Run(c, w, es), fs)
    decreases |es|
  {
    if es == [] {
      assert es + fs == fs;
    } else {
      StepKeeps(c, w, es[0]);
      assert (es + fs)[1..] == es[1..] + fs;
      RunConcat(c, Step(c, w, es[0]), es[1..], fs);
    }
  }

  // ----- end to end -----

  /** Whatever the network does, recv() has returned a prefix of what send() accepted. */
  lemma DeliveredIsPrefix(c: Config, es: seq<Event>)
    requires c.Valid()
    ensures RunFromStart(c, es).delivered <= RunFromStart(c, es).accepted
  {
    PrefixDelivered(c, RunFromStart(c, es));
  }

  lemma PrefixDelivered(c: Config, w: World)
    requires Inv(c, w)
    ensures w.delivered <= w.accepted
  {
    FlattenPrefix(w.blocks, w.rcv.lastAck - c.isn);
    assert w.delivered <= w.delivered + Unread(w.rcv.ring);
  }

  /** No accepted byte is ever gone: it was delivered, or waits at the receiver, or is still in the sending buffer. */
  lemma NothingLost(c: Config, es: seq<Event>)
    requires c.Valid()
    ensures var w := RunFromStart(c, es);
            var k := w.rcv.lastAck - w.snd.lastDataAck;
            && 0 <= k <= |w.snd.buf|
            && w.accepted == w.delivered + Unread(w.rcv.ring) + Flatten(w.snd.buf[k..])
  {
    hide NetInv, SlotInv, WindowInv, Unread, Run;
    var w := RunFromStart(c, es);
    var k, a := w.rcv.lastAck - w.snd.lastDataAck, w.rcv.lastAck - c.isn;
    assert w.snd.buf[k..] == w.blocks[a..];
    assert w.blocks == w.blocks[..a] + w.blocks[a..];
    FlattenConcat(w.blocks[..a], w.blocks[a..]);
  }

  /** No run makes an honest endpoint declare its peer broken. */
  lemma NeverBroken(c: Config, es: seq<Event>)
    requires c.Valid()
    ensures !RunFromStart(c, es).snd.broken
  {
    assert Inv(c, RunFromStart(c, es));
  }

  // ----- what the loss lists need -----

  /**
   The sender's list spans at most the largest window; with a receive buffer no larger than the flight
   size that is within the InitialWindow * 2 slots allocated for it, and the receiver's list fits its
   flightFlagSize slots.
   */
  lemma LossListsFit(c: Config, es: seq<Event>)
    requires c.Valid()
    ensures var w := RunFromStart(c, es);
            && w.snd.lastDataAck <= w.snd.lastAck <= w.snd.curr + 1 <= w.snd.lastDataAck + c.LargestWindow()
            && (forall m, n :: m in w.snd.loss && n in w.snd.loss ==> m - n < c.LargestWindow())
            && (forall m, n :: m in w.rcv.loss && n in w.rcv.loss ==> m - n < c.rcvBufSize)
    ensures c.rcvBufSize <= c.flightFlagSize ==> c.LargestWindow() <= 2 * c.InitialWindow()
  {
    hide RunFromStart;
    SpansFit(c, RunFromStart(c, es));
  }

  lemma SpansFit(c: Config, w: World)
    requires Inv(c, w)
    ensures w.snd.lastDataAck <= w.snd.lastAck <= w.snd.curr + 1 <= w.snd.lastDataAck + c.LargestWindow()
    ensures forall m, n :: m in w.snd.loss && n in w.snd.loss ==> m - n < c.LargestWindow()
    ensures forall m, n :: m in w.rcv.loss && n in w.rcv.loss ==> m - n < c.rcvBufSize
  {
    hide HistoryInv, DeliveredInv, CrossInv, NetInv, SlotInv;
  }

  // ----- progress along a run -----

  /** The acknowledgement points never move back, and history is only appended to. */
  ghost predicate Forward(w: World, w': World) {
    && w.snd.lastDataAck <= w'.snd.lastDataAck && w.snd.lastAck <= w'.snd.lastAck && w.snd.curr <= w'.snd.curr
    && w.rcv.lastAck <= w'.rcv.lastAck && w.rcv.lastAckAck <= w'.rcv.lastAckAck && w.rcv.curr <= w'.rcv.curr
    && w.accepted <= w'.accepted && w.blocks <= w'.blocks && w.delivered <= w'.delivered
  }

  lemma ReportsKeepAcks(s: Sender, ranges: seq<Range>)
    ensures var s' := ProcessNak(s, ranges);
            s'.lastAck == s.lastAck && s'.lastDataAck == s.lastDataAck && s'.curr == s.curr
    decreases |ranges|
  {
    if ranges != [] {
      ReportsKeepAcks(ProcessRange(s, ranges[0]).0, ranges[1..]);
    }
  }

  lemma StepForward(c: Config, w: World, e: Event)
    requires Inv(c, w)
    ensures Forward(w, Step(c, w, e))
  {
    hide Inv, ProcessData, SendFullAck, ProcessNak, ReadBuffer, Chunks;
    InvWellFormed(c, w);
    match e
    case AckTimer(repeat) => SendFullAckCases(w.rcv, repeat);
    case Deliver(Nak(ranges), _) => ReportsKeepAcks(w.snd, ranges);
    case Deliver(Data(n, b), _) => ReportOfData(w.rcv, n, b);
    case _ =>
  }

  lemma {:induction false} RunForward(c: Config, w: World, es: seq<Event>)
    requires Inv(c, w)
    ensures Forward(w, Run(c, w, es))
    decreases |es|
  {
    if es != [] {
      StepKeeps(c, w, es[0]);
      StepForward(c, w, es[0]);
      RunForward(c, Step(c, w, es[0]), es[1..]);
    }
  }

  /** A number stands for one payload for good: every packet that ever carries it carries the same bytes. */
  lemma SameNumberSamePayload(c: Config, es: seq<Event>, fs: seq<Event>, n: int, b: Block, b': Block)
    requires c.Valid()
    requires Data(n, b) in RunFromStart(c, es).net
    requires Data(n, b') in RunFromStart(c, es + fs).net
    ensures b == b'
  {
    hide NetInv, SenderInv, ReceiverInv, DeliveredInv;
    InitialInv(c);
    RunConcat(c, Initial(c), es, fs);
    RunForward(c, RunFromStart(c, es), fs);
    PayloadsAgree(c, RunFromStart(c, es), RunFromStart(c, es + fs), n, b, b');
  }

  lemma PayloadsAgree(c: Config, w: World, w': World, n: int, b: Block, b': Block)
    requires NetInv(c, w.snd, w.rcv, w.blocks, w.net) && NetInv(c, w'.snd, w'.rcv, w'.blocks, w'.net)
    requires w.blocks <= w'.blocks
    requires Data(n, b) in w.net && Data(n, b') in w'.net
    ensures b == b'
  {
    assert PacketInv(c, w.snd, w.rcv, w.blocks, Data(n, b));
    assert PacketInv(c, w'.snd, w'.rcv, w'.blocks, Data(n, b'));
  }
}
