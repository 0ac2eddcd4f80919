/**
 When a connection on the circle can still deliver everything: exactly when the sender may send all of it without
 a further full ACK, or the receiver can come to a number that compares as newer than the last confirmed ACK.
 */
module CircleProgress {
  import opened Common
  import opened SeqNo
  import opened StreamRing
  import opened Protocol
  import opened ProtocolSafety
  import opened ProtocolRuns
  import opened ProtocolProgress
  import opened FlightSize
  import opened ReceiverHalf
  import opened Endpoints
  import opened CircleRuns

  ghost predicate Leads(c: Config, w: World, w': World)
    requires CircleInv(c, w)
  {
    exists es :: Quiet(es) && CircleRun(c, w, es) == w'
  }

  lemma LeadsSelf(c: Config, w: World)
    requires CircleInv(c, w)
    ensures Leads(c, w, w)
  {
    assert Quiet([]) && CircleRun(c, w, []) == w;
  }

  lemma LeadsOn(c: Config, w: World, w1: World, w2: World)
    requires CircleInv(c, w) && Leads(c, w, w1) && CircleInv(c, w1) && Leads(c, w1, w2)
    ensures Leads(c, w, w2) && CircleInv(c, w2)
  {
    hide CircleInv;
    var es :| Quiet(es) && CircleRun(c, w, es) == w1;
    var fs :| Quiet(fs) && CircleRun(c, w1, fs) == w2;
    CircleConcat(c, w, es, fs);
    assert Quiet(es + fs);
  }

  lemma LeadsStep(c: Config, w: World, e: Event)
    requires CircleInv(c, w) && Quiet([e])
    ensures WellFormed(c, w)
    ensures CircleInv(c, CircleStep(c, w, e)) && Leads(c, w, CircleStep(c, w, e))
  {
    hide CircleInv, CircleStep;
    CircleStepKeeps(c, w, e);
    assert [e][1..] == [];
    assert CircleRun(c, CircleStep(c, w, e), []) == CircleStep(c, w, e);
    assert CircleRun(c, w, [e]) == CircleStep(c, w, e);
  }

  lemma NotBroken(c: Config, w: World)
    requires Inv(c, w)
    ensures WellFormed(c, w) && !w.snd.broken
  {
    InvWellFormed(c, w);
  }

  /** Where no ACK is sent or confirmed, a run is the same on the circle. */
  lemma {:induction false} PlainRun(c: Config, w: World, es: seq<Event>)
    requires CircleInv(c, w) && Plain(es)
    ensures Inv(c, w) && CircleRun(c, w, es) == Run(c, w, es)
    decreases |es|
  {
    hide Inv, Step, WithinTurn;
    if es != [] {
      CircleStepKeeps(c, w, es[0]);
      NotBroken(c, w);
      assert CircleStep(c, w, es[0]) == Step(c, w, es[0]);
      PlainRun(c, CircleStep(c, w, es[0]), es[1..]);
    }
  }

  lemma LeadsPlainly(c: Config, w: World, w': World)
    requires CircleInv(c, w) && Reaches(c, w, w', true)
    ensures CircleInv(c, w') && Leads(c, w, w')
  {
    hide Inv, WithinTurn;
    var es :| Quiet(es) && Plain(es) && Run(c, w, es) == w';
    PlainRun(c, w, es);
  }

  // ----- the receiver settles, and stays where it is compared -----

  /** Nothing but the loss list of the sender, the ring and the bookkeeping of ACKs and packets differ. */
  ghost predicate SameMatter(w: World, w': World) {
    && w'.blocks == w.blocks && w'.accepted == w.accepted
    && w'.rcv.lastAckAck == w.rcv.lastAckAck
    && w'.snd.lastDataAck == w.snd.lastDataAck && SendLimit(w'.snd) == SendLimit(w.snd)
  }

  lemma AckStepSettles(c: Config, w: World)
    requires CircleInv(c, w)
    ensures WellFormed(c, w)
    ensures var w1 := AckStep(w, true);
            && w1.rcv.lastAck == NextAck(w.rcv) && NextAck(w1.rcv) == NextAck(w.rcv)
            && w1.rcv.loss == w.rcv.loss && w1.rcv.curr == w.rcv.curr && w1.rcv.lastAckAck == w.rcv.lastAckAck
            && w1 == w.(rcv := w1.rcv, net := w1.net)
  {
    hide Inv, Wrap, SeqCmp;
    InvWellFormed(c, w);
    LessThanATurn(c, w);
    WrapDifference(NextAck(w.rcv), w.rcv.lastAckAck);
  }

  lemma SettleOnCircle(c: Config, w: World) returns (w': World)
    requires CircleInv(c, w)
    ensures CircleInv(c, w') && Leads(c, w, w') && Settled(w') && SameMatter(w, w') && w'.snd == w.snd
    ensures w'.rcv.loss == w.rcv.loss && w'.rcv.curr == w.rcv.curr
  {
    hide Inv, Step, NextAck, WithinTurn, AckStep, CircleRun, Leads;
    AckStepSettles(c, w);
    InvWellFormed(c, w);
    LeadsStep(c, w, AckTimer(true));
    NotBroken(c, w);
    var w1 := AckStep(w, true);
    AppRecvReadsAll(c, w1);
    var e := AppRecv(|Unread(w1.rcv.ring)| + 1);
    LeadsStep(c, w1, e);
    NotBroken(c, w1);
    w' := Step(c, w1, e);
    LeadsOn(c, w, w1, w');
  }

  // ----- one packet more -----

  /** A number that the receiver can come to: its next ACK, one that is missing, or one past the last arrival. */
  ghost predicate Pending(r: Receiver, x: int) {
    NextAck(r) <= x && (x in r.loss || x > r.curr)
  }

  /** The packet n that the receiver waited for has arrived. */
  ghost predicate Moved(r: Receiver, r': Receiver, n: int) {
    r'.loss == r.loss - {n} && r'.curr == Max(r.curr, n)
  }

  lemma StillPending(r: Receiver, r': Receiver, x: int)
    requires r.Valid() && r'.Valid() && Moved(r, r', NextAck(r)) && Pending(r, x) && NextAck(r) < x
    ensures Pending(r', x) && NextAck(r) < NextAck(r')
  {
    NextAckBounds(r);
    NextAckBounds(r');
    if x in r.loss {
      assert x in r'.loss;
    } else {
      assert x > r'.curr;
    }
  }

  lemma AdvanceOnCircle(c: Config, w: World) returns (w': World)
    requires CircleInv(c, w) && Settled(w) && w.rcv.lastAck <= w.snd.curr
    ensures CircleInv(c, w') && Leads(c, w, w') && Settled(w') && SameMatter(w, w')
    ensures w'.snd == w.snd.(loss := w'.snd.loss) && Moved(w.rcv, w'.rcv, w.rcv.lastAck)
  {
    hide Inv, Step, NextAck, WithinTurn, CircleRun, Leads, Reaches;
    var n := w.rcv.lastAck;
    SenderBehindReceiver(c, w);
    var w1 := Resend(c, w, n);
    LeadsPlainly(c, w, w1);
    var e := Deliver(Data(n, w.blocks[n - c.isn]), true);
    NextPacketAdmitted(c, w1, w.blocks[n - c.isn]);
    LeadsStep(c, w1, e);
    NotBroken(c, w1);
    var w2 := Step(c, w1, e);
    w' := SettleOnCircle(c, w2);
    LeadsOn(c, w, w1, w2);
    LeadsOn(c, w, w2, w');
  }

  /** A lite ACK brings the sender's window up to what it has sent. */
  lemma LiteAckOpens(c: Config, w: World) returns (w': World)
    requires CircleInv(c, w) && Settled(w) && w.rcv.lastAck == w.snd.curr + 1
    ensures CircleInv(c, w') && Leads(c, w, w') && SameMatter(w, w') && w'.rcv == w.rcv
    ensures w'.snd == w.snd.(lastAck := w.snd.curr + 1, window := w.snd.lastAck + w.snd.window - (w.snd.curr + 1))
  {
    hide Inv, NextAck, WithinTurn, Wrap, CircleRun, Leads;
    LessThanATurn(c, w);
    NotBroken(c, w);
    SenderBehindReceiver(c, w);
    var n := w.rcv.lastAck;
    if n == w.rcv.lastAckAck {
      AllConfirmed(c, w);
      w' := w;
      LeadsSelf(c, w);
    } else {
      WrapDifference(n, w.rcv.lastAckAck);
      LeadsStep(c, w, LiteAckTimer);
      var w1 := LiteStep(w);
      LeadsStep(c, w1, Deliver(LiteAck(n), true));
      NotBroken(c, w1);
      w' := Step(c, w1, Deliver(LiteAck(n), true));
      LeadsOn(c, w, w1, w');
    }
  }

  /** When the next ACK is confirmed, so is everything before it, and the sender's window is open. */
  lemma AllConfirmed(c: Config, w: World)
    requires Inv(c, w) && NextAck(w.rcv) == w.rcv.lastAckAck
    ensures w.snd.lastDataAck == w.snd.lastAck == w.rcv.lastAck == w.rcv.lastAckAck && w.snd.window >= 2
  {
    hide HistoryInv, DeliveredInv, NetInv, NextAck;
    NextAckBounds(w.rcv);
  }

  lemma SendNextOnCircle(c: Config, w: World) returns (w': World)
    requires CircleInv(c, w) && Settled(w) && w.rcv.lastAck == w.snd.curr + 1
    requires w.snd.curr + 1 < c.isn + |w.blocks| && w.snd.curr + 1 < SendLimit(w.snd)
    ensures CircleInv(c, w') && Leads(c, w, w') && SameMatter(w, w') && w'.rcv == w.rcv
    ensures w'.snd.curr == w.snd.curr + 1
  {
    hide Inv, Step, NextAck, WithinTurn, CircleRun, Leads, Reaches;
    var w1 := DrainLoss(c, w);
    LeadsPlainly(c, w, w1);
    var w2 := LiteAckOpens(c, w1);
    LeadsOn(c, w, w1, w2);
    PackOne(c, w2);
    LeadsStep(c, w2, Pack(1));
    NotBroken(c, w2);
    w' := Step(c, w2, Pack(1));
    LeadsOn(c, w, w2, w');
  }

  lemma PackOne(c: Config, w: World)
    requires Inv(c, w) && w.snd.loss == {} && w.snd.lastAck == w.snd.curr + 1 < c.isn + |w.blocks| && w.snd.window >= 1
    ensures WellFormed(c, w)
    ensures var w1 := Step(c, w, Pack(1));
            && w1.snd == w.snd.(curr := w.snd.curr + 1, currOff := w.snd.currOff + 1)
            && w1 == w.(snd := w1.snd, net := w1.net)
  {
  }

  /** The receiver gets the packet that it waits for, if need be one not sent before. */
  lemma OneMoreOnCircle(c: Config, w: World) returns (w': World)
    requires CircleInv(c, w) && Settled(w) && w.rcv.lastAck < c.isn + |w.blocks| && w.rcv.lastAck < SendLimit(w.snd)
    ensures CircleInv(c, w') && Leads(c, w, w') && Settled(w') && SameMatter(w, w')
    ensures Moved(w.rcv, w'.rcv, w.rcv.lastAck)
  {
    hide Inv, NextAck, WithinTurn, CircleRun, Leads;
    LessThanATurn(c, w);
    if w.rcv.lastAck <= w.snd.curr {
      w' := AdvanceOnCircle(c, w);
    } else {
      var w1 := SendNextOnCircle(c, w);
      w' := AdvanceOnCircle(c, w1);
      LeadsOn(c, w, w1, w');
    }
  }

  /** The receiver comes to any number that is pending and may be sent. */
  lemma {:induction false} GoTo(c: Config, w: World, x: int) returns (w': World)
    requires CircleInv(c, w) && Settled(w) && Pending(w.rcv, x) && x <= c.isn + |w.blocks| && x <= SendLimit(w.snd)
    ensures CircleInv(c, w') && Leads(c, w, w') && Settled(w') && SameMatter(w, w') && w'.rcv.lastAck == x
    decreases x - w.rcv.lastAck
  {
    hide Inv, NextAck, WithinTurn, CircleRun, Leads;
    if w.rcv.lastAck == x {
      w' := w;
      LeadsSelf(c, w);
    } else {
      var w1 := OneMoreOnCircle(c, w);
      NotBroken(c, w);
      NotBroken(c, w1);
      StillPending(w.rcv, w1.rcv, x);
      w' := GoTo(c, w1, x);
      LeadsOn(c, w, w1, w');
    }
  }

  // ----- a full ACK is sent, answered and confirmed -----

  lemma NewerIsSent(c: Config, w: World)
    requires CircleInv(c, w) && Settled(w) && Newer(w.rcv, w.rcv.lastAck)
    ensures WellFormed(c, w)
    ensures var w1, k, avail := AckStep(w, true), w.rcv.ackSeq + 1, Max(w.rcv.ring.Avail(), 2);
            && w1 == w.(rcv := w.rcv.(ackSeq := k, ackWindow := w.rcv.ackWindow[k := w.rcv.lastAck]), net := w1.net)
            && FullAck(k, w.rcv.lastAck, avail) in w1.net
  {
    hide Inv, Wrap, SeqCmp, NextAck;
    InvWellFormed(c, w);
    CmpSelf(Wrap(w.rcv.lastAck));
    assert Acked(w.rcv, w.rcv.lastAck) == w.rcv;
  }

  lemma ConfirmOnCircle(c: Config, w: World) returns (w': World)
    requires CircleInv(c, w) && Settled(w) && Newer(w.rcv, w.rcv.lastAck)
    ensures CircleInv(c, w') && Leads(c, w, w') && Settled(w')
    ensures w'.blocks == w.blocks && w'.accepted == w.accepted
    ensures w'.rcv.lastAck == w'.rcv.lastAckAck == w.rcv.lastAck
  {
    hide Inv, NextAck, WithinTurn, CircleRun, Leads, AckStep, Newer, ProcessFullAck;
    NewerIsSent(c, w);
    LessThanATurn(c, w);
    var n, k, avail := w.rcv.lastAck, w.rcv.ackSeq + 1, Max(w.rcv.ring.Avail(), 2);
    LeadsStep(c, w, AckTimer(true));
    NotBroken(c, w);
    var w1 := AckStep(w, true);
    LeadsStep(c, w1, Deliver(FullAck(k, n, avail), true));
    NotBroken(c, w1);
    var w2 := Step(c, w1, Deliver(FullAck(k, n, avail), true));
    LeadsOn(c, w, w1, w2);
    SameNewer(w.rcv, w2.rcv, n);
    SameNextAck(w.rcv, w2.rcv);
    LeadsStep(c, w2, Deliver(Ack2(k), true));
    NotBroken(c, w2);
    w' := Step(c, w2, Deliver(Ack2(k), true));
    LeadsOn(c, w, w2, w');
    ConfirmedSettled(w2, w', k);
  }

  lemma SameNewer(r: Receiver, r': Receiver, a: int)
    requires r'.lastAckAck == r.lastAckAck
    ensures Newer(r', a) == Newer(r, a)
  {
  }

  lemma ConfirmedSettled(w: World, w': World, k: nat)
    requires Settled(w) && w'.rcv == ProcessAck2(w.rcv, k)
    ensures Settled(w')
  {
  }

  // ----- everything is delivered -----

  lemma {:induction false} FinishConfirmed(c: Config, w: World) returns (w': World)
    requires CircleInv(c, w) && Settled(w) && w.rcv.lastAck == w.rcv.lastAckAck
    ensures CircleInv(c, w') && Leads(c, w, w') && w'.accepted == w.accepted && w'.delivered == w.accepted
    decreases c.isn + |w.blocks| - w.rcv.lastAck
  {
    hide Inv, NextAck, WithinTurn, CircleRun, Leads;
    SettledDelivers(c, w);
    if w.rcv.lastAck == c.isn + |w.blocks| {
      w' := w;
      LeadsSelf(c, w);
    } else {
      AllConfirmed(c, w);
      var w1 := OneMoreOnCircle(c, w);
      MovedNear(c, w, w1);
      var w2 := ConfirmOnCircle(c, w1);
      LeadsOn(c, w, w1, w2);
      SettledDelivers(c, w2);
      w' := FinishConfirmed(c, w2);
      LeadsOn(c, w, w2, w');
    }
  }

  lemma MovedNear(c: Config, w: World, w1: World)
    requires CircleInv(c, w) && CircleInv(c, w1) && Settled(w) && Settled(w1) && SameMatter(w, w1)
    requires w.rcv.lastAck == w.rcv.lastAckAck == w.snd.lastDataAck && Moved(w.rcv, w1.rcv, w.rcv.lastAck)
    ensures w1.rcv.lastAck > w.rcv.lastAck && Newer(w1.rcv, w1.rcv.lastAck)
  {
    hide Inv, WithinTurn, Newer;
    NotBroken(c, w);
    NotBroken(c, w1);
    LessThanATurn(c, w1);
    assert NextAck(w1.rcv) > NextAck(w.rcv);
    NearIsNewer(w1.rcv, w1.rcv.lastAck);
  }

  /** The sender may send everything accepted, or a number that the receiver can come to compares as newer. */
  ghost predicate CanFinish(c: Config, w: World) {
    || c.isn + |w.blocks| <= SendLimit(w.snd)
    || exists x :: Pending(w.rcv, x) && x <= SendLimit(w.snd) && Newer(w.rcv, x)
  }

  /** Some run without further losses, with one packet in flight allowed, delivers everything accepted. */
  ghost predicate Finishes(c: Config, w: World)
    requires CircleInv(c, w)
  {
    exists es :: Quiet(es) && CircleRun(c, w, es).delivered == w.accepted
  }

  lemma FinishSettled(c: Config, w: World) returns (w': World)
    requires CircleInv(c, w) && Settled(w) && CanFinish(c, w)
    ensures CircleInv(c, w') && Leads(c, w, w') && w'.delivered == w.accepted
  {
    hide Inv, NextAck, WithinTurn, CircleRun, Leads, Newer;
    LessThanATurn(c, w);
    var total := c.isn + |w.blocks|;
    SentIsAccepted(c, w);
    if total <= SendLimit(w.snd) {
      w' := GoTo(c, w, total);
      SettledDelivers(c, w');
    } else {
      var x :| Pending(w.rcv, x) && x <= SendLimit(w.snd) && Newer(w.rcv, x);
      var w1 := GoTo(c, w, x);
      SameNewer(w.rcv, w1.rcv, x);
      var w2 := ConfirmOnCircle(c, w1);
      LeadsOn(c, w, w1, w2);
      w' := FinishConfirmed(c, w2);
      LeadsOn(c, w, w2, w');
    }
  }

  lemma SentIsAccepted(c: Config, w: World)
    requires Inv(c, w)
    ensures w.rcv.curr <= w.snd.curr < c.isn + |w.blocks|
  {
  }

  /** Settling changes nothing of the condition. */
  lemma SettledCanFinish(c: Config, w: World, w': World)
    requires CanFinish(c, w) && SameMatter(w, w') && w'.rcv.loss == w.rcv.loss && w'.rcv.curr == w.rcv.curr
    ensures CanFinish(c, w')
  {
    hide Wrap, SeqCmp;
    if c.isn + |w.blocks| > SendLimit(w.snd) {
      var x :| Pending(w.rcv, x) && x <= SendLimit(w.snd) && Newer(w.rcv, x);
      assert Pending(w'.rcv, x) && x <= SendLimit(w'.snd) && Newer(w'.rcv, x);
    }
  }

  lemma CanFinishFinishes(c: Config, w: World)
    requires CircleInv(c, w) && CanFinish(c, w)
    ensures Finishes(c, w)
  {
    hide CircleInv, CircleRun, CanFinish;
    var w1 := SettleOnCircle(c, w);
    SettledCanFinish(c, w, w1);
    var w2 := FinishSettled(c, w1);
    LeadsOn(c, w, w1, w2);
    var es :| Quiet(es) && CircleRun(c, w, es) == w2;
  }

  /** As long as the last confirmed ACK is less than half the circle behind, everything can be delivered. */
  lemma NearFinishes(c: Config, w: World)
    requires CircleInv(c, w) && NextAck(w.rcv) - w.rcv.lastAckAck < SEQ_NO_TH
    ensures Finishes(c, w)
  {
    hide Inv, NextAck, WithinTurn, CircleRun;
    LessThanATurn(c, w);
    NotBroken(c, w);
    if NextAck(w.rcv) == w.rcv.lastAckAck {
      var w1 := SettleOnCircle(c, w);
      SameNextAck(w.rcv, w1.rcv);
      var w2 := FinishConfirmed(c, w1);
      LeadsOn(c, w, w1, w2);
      var es :| Quiet(es) && CircleRun(c, w, es) == w2;
    } else {
      NearIsConfirmable(w.rcv, true);
      NextIsPending(w.rcv);
      assert Pending(w.rcv, NextAck(w.rcv)) && Newer(w.rcv, NextAck(w.rcv));
      CanFinishFinishes(c, w);
    }
  }

  lemma SameNextAck(r: Receiver, r': Receiver)
    requires r'.loss == r.loss && r'.curr == r.curr
    ensures NextAck(r') == NextAck(r)
  {
  }

  lemma NextIsPending(r: Receiver)
    ensures Pending(r, NextAck(r))
  {
  }
}
