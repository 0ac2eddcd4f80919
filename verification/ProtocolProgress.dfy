/**
 The protocol cannot deadlock: from every reachable state, even when every packet in flight has just
 been lost, the two ends can still bring the whole accepted stream to the application.
 */
module ProtocolProgress {
  import opened Common
  import opened StreamRing
  import opened Protocol
  import opened ProtocolSafety
  import opened ProtocolRuns

  /** No further bytes are sent, nothing more is lost, and congestion control allows one packet in flight. */
  ghost predicate Quiet(es: seq<Event>) {
    forall i :: 0 <= i < |es| ==> !es[i].AppSend? && !es[i].Lose? && (es[i].Pack? ==> es[i].cong == 1)
  }

  /** No ACK is sent and none is confirmed: nothing here depends on how numbers are compared. */
  ghost predicate Plain(es: seq<Event>) {
    forall i :: 0 <= i < |es| ==>
      !es[i].AckTimer? && !es[i].LiteAckTimer? && (es[i].Deliver? ==> !es[i].packet.Ack2?)
  }

  /** With `plain`, by events of that kind only. */
  ghost predicate Reaches(c: Config, w: World, w': World, plain: bool)
    requires Inv(c, w)
  {
    exists es :: Quiet(es) && (plain ==> Plain(es)) && Run(c, w, es) == w'
  }

  lemma ReachesSelf(c: Config, w: World, plain: bool)
    requires Inv(c, w)
    ensures Reaches(c, w, w, plain)
  {
    assert Quiet([]) && Plain([]) && Run(c, w, []) == w;
  }

  lemma ReachesTrans(c: Config, w: World, w1: World, w2: World, plain: bool)
    requires Inv(c, w) && Reaches(c, w, w1, plain) && Inv(c, w1) && Reaches(c, w1, w2, plain)
    ensures Reaches(c, w, w2, plain) && Inv(c, w2)
  {
    hide Inv;
    var es :| Quiet(es) && (plain ==> Plain(es)) && Run(c, w, es) == w1;
    var fs :| Quiet(fs) && (plain ==> Plain(fs)) && Run(c, w1, fs) == w2;
    RunConcat(c, w, es, fs);
    assert Quiet(es + fs) && (plain ==> Plain(es + fs));
  }

  lemma ReachesAnyhow(c: Config, w: World, w': World)
    requires Inv(c, w) && Reaches(c, w, w', true)
    ensures Reaches(c, w, w', false)
  {
    hide Inv;
    var es :| Quiet(es) && Plain(es) && Run(c, w, es) == w';
  }

  lemma ReachesStep(c: Config, w: World, e: Event, plain: bool)
    requires Inv(c, w) && Quiet([e]) && (plain ==> Plain([e]))
    ensures WellFormed(c, w)
    ensures Reaches(c, w, Step(c, w, e), plain) && Inv(c, Step(c, w, e))
  {
    hide Inv, Step;
    InvWellFormed(c, w);
    StepKeeps(c, w, e);
    var w1 := Step(c, w, e);
    assert [e][1..] == [];
    assert Run(c, w1, []) == w1;
    assert Run(c, w, [e]) == w1;
  }

  /** Everything that arrived is acknowledged and read. */
  ghost predicate Settled(w: World) {
    w.rcv.ring.dataSize == 0 && w.rcv.lastAck == NextAck(w.rcv)
  }

  // ----- the receiver catches up with what has arrived -----

  lemma {:induction false} ReadAll(r: Ring, len: nat)
    requires r.Valid() && len > |Unread(r)|
    ensures ReadBuffer(r, len).0.dataSize == 0
    decreases r.dataSize
  {
    if r.dataSize > 0 {
      UnreadDropFirst(r);
      ReadAll(DropFirst(r), len - (|r.slots[0].value| - r.notch));
    }
  }

  lemma AckTimerCatchesUp(c: Config, w: World, repeat: bool)
    requires Inv(c, w)
    ensures WellFormed(c, w)
    ensures var w1 := Step(c, w, AckTimer(repeat));
            && w1.rcv.lastAck == NextAck(w.rcv) == NextAck(w1.rcv) && w1.rcv.curr == w.rcv.curr
            && w1.snd == w.snd && w1.blocks == w.blocks && w1.accepted == w.accepted
  {
    NextAckBounds(w.rcv);
    AckTimerKeepsReceiver(c, w.rcv, w.blocks, w.delivered, repeat);
    SendFullAckCases(w.rcv, repeat);
  }

  lemma AppRecvReadsAll(c: Config, w: World)
    requires Inv(c, w)
    ensures WellFormed(c, w)
    ensures var w1 := Step(c, w, AppRecv(|Unread(w.rcv.ring)| + 1));
            && w1 == w.(rcv := w.rcv.(ring := w1.rcv.ring), delivered := w1.delivered)
            && w1.rcv.ring.dataSize == 0 && NextAck(w1.rcv) == NextAck(w.rcv)
  {
    ReadAll(w.rcv.ring, |Unread(w.rcv.ring)| + 1);
  }

  lemma Settle(c: Config, w: World) returns (w2: World)
    requires Inv(c, w)
    ensures Inv(c, w2) && Reaches(c, w, w2, false) && Settled(w2)
    ensures w2.snd == w.snd && w2.blocks == w.blocks && w2.accepted == w.accepted
    ensures w2.rcv.lastAck == NextAck(w.rcv) && w2.rcv.curr == w.rcv.curr
  {
    hide Inv, Step, NextAck;
    AckTimerCatchesUp(c, w, true);
    ReachesStep(c, w, AckTimer(true), false);
    var w1 := Step(c, w, AckTimer(true));
    AppRecvReadsAll(c, w1);
    var e := AppRecv(|Unread(w1.rcv.ring)| + 1);
    ReachesStep(c, w1, e, false);
    w2 := Step(c, w1, e);
    ReachesTrans(c, w, w1, w2, false);
  }

  // ----- the sender's loss list runs dry -----

  lemma {:induction false} DrainLoss(c: Config, w: World) returns (w': World)
    requires Inv(c, w)
    ensures Inv(c, w') && Reaches(c, w, w', true)
    ensures w'.snd == w.snd.(loss := {}) && w' == w.(snd := w'.snd, net := w'.net)
    decreases |w.snd.loss|
  {
    if w.snd.loss == {} {
      w' := w;
      ReachesSelf(c, w, true);
    } else {
      var w1 := Step(c, w, Pack(1));
      ReachesStep(c, w, Pack(1), true);
      w' := DrainLoss(c, w1);
      ReachesTrans(c, w, w1, w', true);
    }
  }

  lemma PackRetransmits(c: Config, w: World)
    requires Inv(c, w) && w.snd.loss != {}
    ensures WellFormed(c, w)
    ensures var m, w1 := Least(w.snd.loss), Step(c, w, Pack(1));
            && w1 == w.(snd := w.snd.(loss := w.snd.loss - {m}), net := w1.net)
            && 0 <= m - c.isn < |w.blocks| && w1.net == w.net + {Data(m, w.blocks[m - c.isn])}
  {
    var m := Least(w.snd.loss);
    assert w.snd.buf[m - w.snd.lastDataAck] == w.blocks[m - c.isn];
  }

  /** Every number in the loss list comes out, with its payload. */
  lemma {:induction false} Retransmit(c: Config, w: World, n: int) returns (w': World)
    requires Inv(c, w) && n in w.snd.loss
    ensures Inv(c, w') && Reaches(c, w, w', true)
    ensures w' == w.(snd := w.snd.(loss := w'.snd.loss), net := w'.net)
    ensures 0 <= n - c.isn < |w.blocks| && Data(n, w.blocks[n - c.isn]) in w'.net
    decreases |w.snd.loss|
  {
    hide Inv, Step;
    ReachesStep(c, w, Pack(1), true);
    PackRetransmits(c, w);
    w' := Step(c, w, Pack(1));
    if Least(w.snd.loss) != n {
      var w1 := w';
      w' := Retransmit(c, w1, n);
      ReachesTrans(c, w, w1, w', true);
    }
  }

  // ----- the next missing packet gets through -----

  /** The packet the receiver waits for is always admitted, and moves the ACK point. */
  lemma NextPacketAdmitted(c: Config, w: World, b: Block)
    requires Inv(c, w) && Settled(w) && w.rcv.lastAck <= w.snd.curr
    requires Data(w.rcv.lastAck, b) in w.net
    ensures WellFormed(c, w)
    ensures var n, w1 := w.rcv.lastAck, Step(c, w, Deliver(Data(w.rcv.lastAck, b), true));
            && w1.snd == w.snd && w1.blocks == w.blocks && w1.accepted == w.accepted
            && NextAck(w1.rcv) > n
            && w1.rcv.lastAckAck == w.rcv.lastAckAck
            && w1.rcv.loss == w.rcv.loss - {n} && w1.rcv.curr == Max(w.rcv.curr, n)
  {
    var r, n := w.rcv, w.rcv.lastAck;
    NextAckBounds(r);
    assert SlotInv(c, r, w.blocks, 0);
    DeliverData(c, w, n, b, true);
    ProcessDataCases(r, n, b);
    var r1 := ProcessData(r, n, b).0;
    assert r1.curr >= n && n !in r1.loss && forall m :: m in r1.loss ==> m >= n;
  }

  /** When the loss list is empty, a timeout puts every unacknowledged packet in it. */
  lemma ExpireCovers(c: Config, w: World, n: int)
    requires Inv(c, w) && w.snd.loss == {} && w.snd.lastAck <= n <= w.snd.curr
    ensures WellFormed(c, w)
    ensures var w1 := Step(c, w, Exp);
            && n in w1.snd.loss
            && w1 == w.(snd := w.snd.(loss := w1.snd.loss))
  {
  }

  /** An unacknowledged packet can always be put on the network again. */
  lemma Resend(c: Config, w: World, n: int) returns (w': World)
    requires Inv(c, w) && w.snd.lastAck <= n <= w.snd.curr
    ensures Inv(c, w') && Reaches(c, w, w', true)
    ensures w' == w.(snd := w.snd.(loss := w'.snd.loss), net := w'.net)
    ensures 0 <= n - c.isn < |w.blocks| && Data(n, w.blocks[n - c.isn]) in w'.net
  {
    hide Inv, Step;
    var w1 := DrainLoss(c, w);
    ExpireCovers(c, w1, n);
    ReachesStep(c, w1, Exp, true);
    var w2 := Step(c, w1, Exp);
    w' := Retransmit(c, w2, n);
    ReachesTrans(c, w, w1, w2, true);
    ReachesTrans(c, w, w2, w', true);
  }

  lemma SenderBehindReceiver(c: Config, w: World)
    requires Inv(c, w) && Settled(w)
    ensures w.snd.lastAck <= w.rcv.lastAck <= w.snd.curr + 1
  {
    NextAckBounds(w.rcv);
  }

  lemma Advance(c: Config, w: World) returns (w': World)
    requires Inv(c, w) && Settled(w) && w.rcv.lastAck <= w.snd.curr
    ensures Inv(c, w') && Reaches(c, w, w', false) && Settled(w')
    ensures w'.blocks == w.blocks && w'.accepted == w.accepted && w'.rcv.lastAck > w.rcv.lastAck
  {
    hide Inv, Step, NextAck;
    var n := w.rcv.lastAck;
    SenderBehindReceiver(c, w);
    var w1 := Resend(c, w, n);
    ReachesAnyhow(c, w, w1);
    var e := Deliver(Data(n, w.blocks[n - c.isn]), true);
    NextPacketAdmitted(c, w1, w.blocks[n - c.isn]);
    ReachesStep(c, w1, e, false);
    var w2 := Step(c, w1, e);
    w' := Settle(c, w2);
    ReachesTrans(c, w, w1, w2, false);
    ReachesTrans(c, w, w2, w', false);
  }

  // ----- the window opens again -----

  /** Everything sent is acknowledged at both ends, and the sender may go on. */
  ghost predicate Open(w: World) {
    && Settled(w) && w.rcv.lastAck == w.snd.curr + 1 && w.snd.loss == {}
    && w.snd.lastAck == w.snd.lastDataAck == w.snd.curr + 1 && w.snd.window >= 2
  }

  lemma RepeatedAck(c: Config, w: World)
    requires Inv(c, w) && Settled(w) && w.rcv.lastAckAck != w.rcv.lastAck
    ensures WellFormed(c, w)
    ensures var w1 := Step(c, w, AckTimer(true));
            && w1 == w.(rcv := w1.rcv, net := w1.net)
            && Settled(w1) && w1.rcv.lastAck == w.rcv.lastAck
            && FullAck(w1.rcv.ackSeq, w.rcv.lastAck, Max(w1.rcv.ring.Avail(), 2)) in w1.net
  {
  }

  lemma FullAckOpens(c: Config, w: World, k: nat, avail: int)
    requires Inv(c, w) && Settled(w) && w.rcv.lastAck == w.snd.curr + 1 && w.snd.loss == {}
    requires FullAck(k, w.rcv.lastAck, avail) in w.net && avail >= 2
    ensures WellFormed(c, w)
    ensures var w1 := Step(c, w, Deliver(FullAck(k, w.rcv.lastAck, avail), false));
            && w1 == w.(snd := w1.snd) && Open(w1) && w1.snd.curr == w.snd.curr && w1.snd.window == avail
  {
  }

  /** A settled receiver can tell the sender so, even if that ACK was sent before. */
  lemma OpenWindow(c: Config, w: World) returns (w': World)
    requires Inv(c, w) && Settled(w) && w.rcv.lastAck == w.snd.curr + 1
    ensures Inv(c, w') && Reaches(c, w, w', false) && Open(w')
    ensures w'.blocks == w.blocks && w'.accepted == w.accepted && w'.rcv.lastAck == w.rcv.lastAck
  {
    var w0 := DrainLoss(c, w);
    ReachesAnyhow(c, w, w0);
    if w0.rcv.lastAckAck == w0.rcv.lastAck {
      w' := w0;
    } else {
      w' := AckAgain(c, w0);
      ReachesTrans(c, w, w0, w', false);
    }
  }

  lemma AckAgain(c: Config, w: World) returns (w': World)
    requires Inv(c, w) && Settled(w) && w.rcv.lastAck == w.snd.curr + 1 && w.snd.loss == {}
    requires w.rcv.lastAckAck != w.rcv.lastAck
    ensures Inv(c, w') && Reaches(c, w, w', false) && Open(w')
    ensures w'.blocks == w.blocks && w'.accepted == w.accepted && w'.rcv.lastAck == w.rcv.lastAck
  {
    hide Inv, Step, NextAck;
    RepeatedAck(c, w);
    ReachesStep(c, w, AckTimer(true), false);
    var w1 := Step(c, w, AckTimer(true));
    var k, avail := w1.rcv.ackSeq, Max(w1.rcv.ring.Avail(), 2);
    FullAckOpens(c, w1, k, avail);
    ReachesStep(c, w1, Deliver(FullAck(k, w1.rcv.lastAck, avail), false), false);
    w' := Step(c, w1, Deliver(FullAck(k, w1.rcv.lastAck, avail), false));
    ReachesTrans(c, w, w1, w', false);
  }

  /** With an open window of at least one packet, the next block goes out. */
  lemma PackSendsNext(c: Config, w: World)
    requires Inv(c, w) && Open(w) && w.rcv.lastAck < c.isn + |w.blocks|
    ensures WellFormed(c, w)
    ensures var w1 := Step(c, w, Pack(1));
            && w1 == w.(snd := w1.snd, net := w1.net) && Settled(w1) && w1.snd.curr == w.rcv.lastAck
  {
  }

  // ----- the theorem -----

  /** One more packet reaches the application, whatever is missing: an arrival, an ACK or a new packet. */
  lemma OneMore(c: Config, w: World) returns (w': World)
    requires Inv(c, w) && Settled(w) && w.rcv.lastAck < c.isn + |w.blocks|
    ensures Inv(c, w') && Reaches(c, w, w', false) && Settled(w')
    ensures w'.blocks == w.blocks && w'.accepted == w.accepted && w'.rcv.lastAck > w.rcv.lastAck
  {
    hide Inv, Step, NextAck;
    SenderBehindReceiver(c, w);
    if w.rcv.lastAck <= w.snd.curr {
      w' := Advance(c, w);
    } else {
      var w1 := OpenWindow(c, w);
      PackSendsNext(c, w1);
      ReachesStep(c, w1, Pack(1), false);
      var w2 := Step(c, w1, Pack(1));
      w' := Advance(c, w2);
      ReachesTrans(c, w, w1, w2, false);
      ReachesTrans(c, w, w2, w', false);
    }
  }

  lemma SettledDelivers(c: Config, w: World)
    requires Inv(c, w) && Settled(w)
    ensures w.rcv.lastAck <= c.isn + |w.blocks|
    ensures w.rcv.lastAck == c.isn + |w.blocks| ==> w.delivered == w.accepted
  {
    assert w.blocks[..|w.blocks|] == w.blocks;
    assert Unread(w.rcv.ring) == [];
  }

  lemma {:induction false} Finish(c: Config, w: World) returns (w': World)
    requires Inv(c, w) && Settled(w)
    ensures Inv(c, w') && Reaches(c, w, w', false)
    ensures w'.accepted == w.accepted && w'.delivered == w.accepted
    decreases c.isn + |w.blocks| - w.rcv.lastAck
  {
    hide Inv, Settled;
    SettledDelivers(c, w);
    if w.rcv.lastAck == c.isn + |w.blocks| {
      w' := w;
      ReachesSelf(c, w, false);
    } else {
      var w1 := OneMore(c, w);
      SettledDelivers(c, w1);
      w' := Finish(c, w1);
      ReachesTrans(c, w, w1, w', false);
    }
  }

  /** No deadlock: after any run, with every packet in flight lost, some run of the two ends delivers everything. */
  lemma CanAlwaysFinish(c: Config, es: seq<Event>) returns (fs: seq<Event>)
    requires c.Valid()
    ensures var w := RunFromStart(c, es).(net := {});
            && Inv(c, w) && Quiet(fs)
            && Run(c, w, fs).accepted == w.accepted && Run(c, w, fs).delivered == w.accepted
  {
    var w := RunFromStart(c, es).(net := {});
    var w1 := Settle(c, w);
    var w2 := Finish(c, w1);
    ReachesTrans(c, w, w1, w2, false);
    fs :| Quiet(fs) && Run(c, w, fs) == w2;
  }
}
