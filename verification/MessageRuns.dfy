/**
 Runs of a connection in message mode without drop requests: messages are submitted, their packets arrive in
 any order and any number of times, the receiver acknowledges what is there, and the application reads.
 */
module MessageRuns {
  import opened Common
  import opened Messages
  import opened MessageRing

  /** A read that returned a message: the packets it took, the length asked for, and the bytes. */
  datatype Delivery = Delivery(lo: int, hi: int, len: nat, data: seq<byte>)

  /** `start` is the number of the packet at the read position; msgs and done are history. */
  datatype Flow = Flow(msgs: seq<Message>, start: nat, ring: MsgRing, done: seq<Delivery>)

  datatype MsgEvent = Submit(m: Message) | Arrive(n: nat) | Acknowledge(len: nat) | Read(len: nat)

  function InitialFlow(size: nat): Flow
    requires size > 0
  {
    Flow([], 0, MsgRing(seq(size, _ => Empty), 0, 0), [])
  }

  ghost function Sent(mss: nat, f: Flow): seq<DataPacket>
    requires mss > 0
  {
    Stream(f.msgs, mss)
  }

  /** The flow after readMsg did rd. */
  ghost function AfterRead(f: Flow, len: nat, rd: Reading): Flow {
    Flow(f.msgs, f.start + rd.moved, rd.ring,
      if rd.taken == None then f.done
      else f.done + [Delivery(f.start + rd.taken.value.lo, f.start + rd.taken.value.hi, len, rd.data)])
  }

  /** One step; what the guards of processData and sendCtrl refuse leaves the flow as it is. */
  ghost function MsgStep(mss: nat, f: Flow, e: MsgEvent): Flow
    requires mss > 0 && f.ring.dataSize + f.ring.maxPos < |f.ring.cells|
  {
    match e
    case Submit(m) =>
      if m.data == [] then f else f.(msgs := f.msgs + [m])
    case Arrive(n) =>
      var offset := n - (f.start + f.ring.dataSize);
      if n >= |Sent(mss, f)| || offset < 0 || offset >= |f.ring.cells| - f.ring.dataSize - 1 then f
      else f.(ring := Add(f.ring, offset, Sent(mss, f)[n]))
    case Acknowledge(len) =>
      if f.ring.dataSize + len < |f.ring.cells| && AllThere(f.ring, len) then f.(ring := Ack(f.ring, len)) else f
    case Read(len) =>
      AfterRead(f, len, ReadMsg(f.ring, len))
  }

  /** The receiver acknowledges only what has arrived. */
  ghost predicate AllThere(r: MsgRing, len: nat)
    requires r.dataSize + len < |r.cells|
  {
    forall i :: r.dataSize <= i < r.dataSize + len ==> r.cells[i] != Empty
  }

  // ----- the invariant -----

  /** The numbers of the packets that the reads took. */
  ghost function Got(ds: seq<Delivery>): set<int> {
    if ds == [] then {} else Got(ds[..|ds| - 1]) + Span(ds[|ds| - 1].lo, ds[|ds| - 1].hi)
  }

  /** A read after the reads before it: a whole message, never taken before, and not ahead of its turn. */
  ghost predicate GoodRead(sent: seq<DataPacket>, before: seq<Delivery>, d: Delivery) {
    && IsMessage(sent, d.lo, d.hi)
    && d.data == Cut(Flatten(PayloadsOf(sent[d.lo..d.hi + 1])), d.len)
    && (forall x :: d.lo <= x <= d.hi ==> x !in Got(before))
    && (sent[d.hi].msg.inOrder ==> forall x :: 0 <= x < d.lo ==> x in Got(before))
  }

  ghost predicate GoodReads(sent: seq<DataPacket>, ds: seq<Delivery>) {
    forall k :: 0 <= k < |ds| ==> GoodRead(sent, ds[..k], ds[k])
  }

  /** The packets that were read: those behind the read position, and those marked in the ring. */
  ghost predicate Accounted(start: nat, cells: seq<Cell>, got: set<int>) {
    forall x :: x in got <==> 0 <= x < start || (start <= x < start + |cells| && cells[x - start].Consumed?)
  }

  ghost predicate FlowInv(mss: nat, f: Flow) {
    && mss > 0
    && (forall k :: 0 <= k < |f.msgs| ==> f.msgs[k].data != [])
    && f.start <= |Sent(mss, f)|
    && InUse(f.ring, Sent(mss, f)[f.start..])
    && Accounted(f.start, f.ring.cells, Got(f.done))
    && GoodReads(Sent(mss, f), f.done)
  }

  // ----- submitting -----

  lemma SubmitKeepsRing(r: MsgRing, sent: seq<DataPacket>, more: seq<DataPacket>, start: nat)
    requires start <= |sent| && InUse(r, sent[start..])
    requires Framed(sent + more) && Framed(more)
    ensures InUse(r, (sent + more)[start..])
  {
    var flow, flow' := sent[start..], (sent + more)[start..];
    assert flow' == flow + more;
    AdjacentTail(sent + more, start);
    forall i, j | 0 <= i < j < |r.cells| && j == i + 1 && j < |flow'| && !flow'[j].msg.first
      ensures r.cells[i].Consumed? <==> r.cells[j].Consumed?
    {
      if j < |flow| {
        assert flow'[j] == flow[j];
      } else if j > |flow| {
        assert r.cells[i] == Empty && r.cells[j] == Empty;
      }
    }
  }

  lemma SubmitKeepsReads(sent: seq<DataPacket>, more: seq<DataPacket>, ds: seq<Delivery>)
    requires GoodReads(sent, ds)
    ensures GoodReads(sent + more, ds)
  {
    forall k | 0 <= k < |ds|
      ensures GoodRead(sent + more, ds[..k], ds[k])
    {
      assert GoodRead(sent, ds[..k], ds[k]);
      assert (sent + more)[ds[k].lo..ds[k].hi + 1] == sent[ds[k].lo..ds[k].hi + 1];
    }
  }

  lemma SubmitKeeps(mss: nat, f: Flow, m: Message)
    requires FlowInv(mss, f)
    ensures FlowInv(mss, MsgStep(mss, f, Submit(m)))
  {
    hide InUse, Accounted, GoodReads, Framed, PacketsOf;
    if m.data != [] {
      var msgs := f.msgs + [m];
      var more := PacketsOf(m, mss);
      assert msgs[..|msgs| - 1] == f.msgs;
      StreamFramed(msgs, mss);
      MessageFramed(m, mss);
      SubmitKeepsRing(f.ring, Sent(mss, f), more, f.start);
      SubmitKeepsReads(Sent(mss, f), more, f.done);
    }
  }

  // ----- arriving and acknowledging -----

  lemma ArriveKeeps(mss: nat, f: Flow, n: nat)
    requires FlowInv(mss, f)
    ensures FlowInv(mss, MsgStep(mss, f, Arrive(n)))
  {
    hide GoodReads, InUse;
    Bounds(f.ring, Sent(mss, f)[f.start..]);
    var offset := n - (f.start + f.ring.dataSize);
    if n < |Sent(mss, f)| && 0 <= offset < |f.ring.cells| - f.ring.dataSize - 1 {
      AddKeeps(f.ring, Sent(mss, f)[f.start..], offset);
    }
  }

  lemma AddKeeps(r: MsgRing, flow: seq<DataPacket>, offset: nat)
    requires InUse(r, flow) && offset < |r.cells| - r.dataSize - 1 && r.dataSize + offset < |flow|
    ensures var r1 := Add(r, offset, flow[r.dataSize + offset]);
            && InUse(r1, flow) && |r1.cells| == |r.cells|
            && forall i :: 0 <= i < |r.cells| ==> (r1.cells[i].Consumed? <==> r.cells[i].Consumed?)
  {
  }

  lemma AcknowledgeKeeps(mss: nat, f: Flow, len: nat)
    requires FlowInv(mss, f)
    ensures FlowInv(mss, MsgStep(mss, f, Acknowledge(len)))
  {
    hide GoodReads;
  }

  // ----- reading -----

  lemma MovedAccounts(start: nat, cells: seq<Cell>, m: nat, cells': seq<Cell>, got: set<int>)
    requires Accounted(start, cells, got) && Moved(cells, m, cells') && m <= |cells|
    requires forall i :: 0 <= i < m ==> cells[i].Consumed?
    ensures Accounted(start + m, cells', got)
  {
    forall x
      ensures x in got <==>
          0 <= x < start + m || (start + m <= x < start + m + |cells| && cells'[x - (start + m)].Consumed?)
    {
      var i, j := x - start, x - (start + m);
      assert 0 <= j < |cells| ==> cells'[j] == if i < |cells| then cells[i] else Empty;
    }
  }

  /** The packets of a read join those taken before. */
  lemma TakenAccounts(start: nat, cells: seq<Cell>, m: nat, lo: int, hi: int, cells': seq<Cell>, got: set<int>,
      got': set<int>)
    requires Accounted(start, cells, got) && got' == got + Span(start + lo, start + hi)
        && Taken(cells, m, lo, hi, cells') && m <= |cells| && 0 <= lo <= hi < |cells|
    requires forall i :: 0 <= i < m ==> cells[i].Consumed? || lo <= i <= hi
    requires forall i :: lo <= i <= hi ==> cells[i].Unread?
    ensures Accounted(start + m, cells', got')
  {
    forall x
      ensures x in got || start + lo <= x <= start + hi <==>
              0 <= x < start + m || (start + m <= x < start + m + |cells| && cells'[x - (start + m)].Consumed?)
    {
      var i, j := x - start, x - (start + m);
      assert 0 <= j < |cells| && i < |cells| ==> (cells'[j].Consumed? <==> cells[i].Consumed? || lo <= i <= hi);
    }
  }

  lemma ReadIsGood(sent: seq<DataPacket>, f: Flow, len: nat, g: Range, rd: Reading)
    requires f.start <= |sent| && Accounted(f.start, f.ring.cells, Got(f.done))
    requires ReadsWell(f.ring, sent[f.start..], len, rd) && rd.taken == Some(g)
    ensures GoodRead(sent, f.done, Delivery(f.start + g.lo, f.start + g.hi, len, rd.data))
  {
    hide InUse, NothingReady, Cut, Flatten, Got, Taken, IsMessage;
    var flow, lo, hi := sent[f.start..], f.start + g.lo, f.start + g.hi;
    TakenIsThere(f.ring.cells, f.ring.dataSize, flow, g.lo, g.hi);
    MessageInTail(sent, f.start, g.lo, g.hi);
    forall i | lo <= i <= hi
      ensures i !in Got(f.done)
    {
      assert f.ring.cells[i - f.start].Unread?;
    }
    if sent[hi].msg.inOrder {
      forall x | 0 <= x < lo
        ensures x in Got(f.done)
      {
        if x >= f.start { assert f.ring.cells[x - f.start].Consumed?; }
      }
    }
  }

  lemma MessageInTail(sent: seq<DataPacket>, start: nat, lo: int, hi: int)
    requires start <= |sent| && IsMessage(sent[start..], lo, hi)
    ensures IsMessage(sent, start + lo, start + hi)
    ensures sent[start..][lo..hi + 1] == sent[start + lo..start + hi + 1] && sent[start + hi] == sent[start..][hi]
  {
    forall i | start + lo <= i <= start + hi
      ensures sent[i] == sent[start..][i - start]
    {
    }
  }

  lemma ReadKeeps(mss: nat, f: Flow, len: nat)
    requires FlowInv(mss, f)
    ensures FlowInv(mss, MsgStep(mss, f, Read(len)))
  {
    hide InUse, Accounted, ReadMsg, ReadsWell, GoodReads;
    ReadMsgReadsWell(f.ring, Sent(mss, f)[f.start..], len);
    if Overlooked(f.ring) {
      assert MsgStep(mss, f, Read(len)) == f;
    } else {
      ReadKeepsRing(mss, f, len, ReadMsg(f.ring, len));
    }
  }

  lemma ReadKeepsRing(mss: nat, f: Flow, len: nat, rd: Reading)
    requires FlowInv(mss, f) && ReadsWell(f.ring, Sent(mss, f)[f.start..], len, rd)
    ensures FlowInv(mss, AfterRead(f, len, rd))
  {
    hide InUse, Accounted, GoodReads, Deliverable, NothingReady, Taken, Moved, Got, Cut, Flatten, Stream;
    var sent := Sent(mss, f);
    assert sent[f.start..][rd.moved..] == sent[f.start + rd.moved..];
    ReadKeepsLog(sent, f, len, rd);
  }

  lemma ReadKeepsLog(sent: seq<DataPacket>, f: Flow, len: nat, rd: Reading)
    requires f.start <= |sent| && Accounted(f.start, f.ring.cells, Got(f.done)) && GoodReads(sent, f.done)
    requires InUse(f.ring, sent[f.start..]) && ReadsWell(f.ring, sent[f.start..], len, rd)
    ensures var f' := AfterRead(f, len, rd);
            Accounted(f'.start, f'.ring.cells, Got(f'.done)) && GoodReads(sent, f'.done)
  {
    hide InUse, Accounted, GoodReads, Got, ReadsWell;
    if rd.taken == None {
      NothingLogged(sent, f, len, rd);
    } else {
      ReadLogged(sent, f, len, rd, rd.taken.value);
    }
  }

  lemma NothingLogged(sent: seq<DataPacket>, f: Flow, len: nat, rd: Reading)
    requires f.start <= |sent| && Accounted(f.start, f.ring.cells, Got(f.done))
    requires ReadsWell(f.ring, sent[f.start..], len, rd) && rd.taken == None
    ensures Accounted(f.start + rd.moved, rd.ring.cells, Got(f.done))
  {
    hide InUse, Accounted, Deliverable, NothingReady, Taken, Moved, Got, Cut, Flatten;
    MovedAccounts(f.start, f.ring.cells, rd.moved, rd.ring.cells, Got(f.done));
  }

  lemma ReadFacts(r: MsgRing, flow: seq<DataPacket>, len: nat, rd: Reading, g: Range)
    requires ReadsWell(r, flow, len, rd) && rd.taken == Some(g)
    ensures rd.moved <= |r.cells| && 0 <= g.lo <= g.hi < |r.cells|
    ensures Taken(r.cells, rd.moved, g.lo, g.hi, rd.ring.cells)
    ensures forall i :: 0 <= i < rd.moved ==> r.cells[i].Consumed? || g.lo <= i <= g.hi
    ensures forall i :: g.lo <= i <= g.hi ==> r.cells[i].Unread?
  {
    hide InUse, Taken, NothingReady, Cut, Flatten;
  }

  lemma ReadLogged(sent: seq<DataPacket>, f: Flow, len: nat, rd: Reading, g: Range)
    requires f.start <= |sent| && Accounted(f.start, f.ring.cells, Got(f.done)) && GoodReads(sent, f.done)
    requires InUse(f.ring, sent[f.start..]) && ReadsWell(f.ring, sent[f.start..], len, rd) && rd.taken == Some(g)
    ensures var done := f.done + [Delivery(f.start + g.lo, f.start + g.hi, len, rd.data)];
            Accounted(f.start + rd.moved, rd.ring.cells, Got(done)) && GoodReads(sent, done)
  {
    hide InUse, Accounted, GoodReads, GoodRead, Taken, Got, ReadsWell;
    ReadFacts(f.ring, sent[f.start..], len, rd, g);
    ReadIsGood(sent, f, len, g, rd);
    var d := Delivery(f.start + g.lo, f.start + g.hi, len, rd.data);
    OneMoreRead(sent, f.done, d);
    TakenAccounts(f.start, f.ring.cells, rd.moved, g.lo, g.hi, rd.ring.cells, Got(f.done), Got(f.done + [d]));
  }

  lemma OneMoreRead(sent: seq<DataPacket>, ds: seq<Delivery>, d: Delivery)
    requires GoodReads(sent, ds) && GoodRead(sent, ds, d)
    ensures GoodReads(sent, ds + [d]) && Got(ds + [d]) == Got(ds) + Span(d.lo, d.hi)
  {
    hide GoodRead, Span;
    var more := ds + [d];
    assert more[..|ds|] == ds;
    forall k | 0 <= k < |more|
      ensures GoodRead(sent, more[..k], more[k])
    {
      if k < |ds| { assert more[..k] == ds[..k]; }
    }
  }

  // ----- runs -----

  lemma MsgStepKeeps(mss: nat, f: Flow, e: MsgEvent)
    requires FlowInv(mss, f)
    ensures f.ring.dataSize + f.ring.maxPos < |f.ring.cells|
    ensures FlowInv(mss, MsgStep(mss, f, e))
  {
    hide FlowInv, MsgStep;
    FlowBounds(mss, f);
    match e
    case Submit(m) => SubmitKeeps(mss, f, m);
    case Arrive(n) => ArriveKeeps(mss, f, n);
    case Acknowledge(len) => AcknowledgeKeeps(mss, f, len);
    case Read(len) => ReadKeeps(mss, f, len);
  }

  lemma FlowBounds(mss: nat, f: Flow)
    requires FlowInv(mss, f)
    ensures mss > 0 && f.ring.dataSize + f.ring.maxPos < |f.ring.cells|
  {
  }

  ghost function MsgRun(mss: nat, f: Flow, es: seq<MsgEvent>): (f': Flow)
    requires FlowInv(mss, f)
    ensures FlowInv(mss, f')
    decreases |es|
  {
    if es == [] then f
    else
      MsgStepKeeps(mss, f, es[0]);
      MsgRun(mss, MsgStep(mss, f, es[0]), es[1..])
  }

  lemma InitialFlowInv(mss: nat, size: nat)
    requires mss > 0 && size > 0
    ensures FlowInv(mss, InitialFlow(size))
  {
  }

  // ----- what every run guarantees -----

  /** Read d returned the j-th message, cut to the length asked for. */
  ghost predicate Returns(mss: nat, msgs: seq<Message>, d: Delivery, j: int)
    requires mss > 0
  {
    && 0 <= j < |msgs|
    && d.lo == |Stream(msgs[..j], mss)| && d.hi + 1 == |Stream(msgs[..j + 1], mss)|
    && d.data == Cut(msgs[j].data, d.len)
  }

  lemma {:induction false} Offsets(msgs: seq<Message>, mss: nat, i: nat, j: nat)
    requires mss > 0 && (forall k :: 0 <= k < |msgs| ==> msgs[k].data != []) && i < j <= |msgs|
    ensures |Stream(msgs[..i], mss)| < |Stream(msgs[..j], mss)|
    decreases j
  {
    hide PacketsOf;
    assert msgs[..j][..j - 1] == msgs[..j - 1];
    MessageFramed(msgs[j - 1], mss);
    if i < j - 1 {
      Offsets(msgs, mss, i, j - 1);
    }
  }

  lemma {:induction false} GotHas(ds: seq<Delivery>, k: nat, x: int)
    requires k < |ds| && ds[k].lo <= x <= ds[k].hi
    ensures x in Got(ds)
    decreases |ds|
  {
    if k < |ds| - 1 {
      GotHas(ds[..|ds| - 1], k, x);
    }
  }

  lemma {:induction false} GotFrom(ds: seq<Delivery>, x: int) returns (k: nat)
    requires x in Got(ds)
    ensures k < |ds| && ds[k].lo <= x <= ds[k].hi
    decreases |ds|
  {
    var last := |ds| - 1;
    if x in Got(ds[..last]) {
      k := GotFrom(ds[..last], x);
    } else {
      k := last;
    }
  }

  lemma ReadReturnsMessage(mss: nat, f: Flow, k: nat) returns (j: nat)
    requires FlowInv(mss, f) && k < |f.done|
    ensures Returns(mss, f.msgs, f.done[k], j)
    ensures Sent(mss, f)[f.done[k].hi].msg.inOrder == f.msgs[j].inOrder
  {
    assert GoodRead(Sent(mss, f), f.done[..k], f.done[k]);
    j := MessageAt(f.msgs, mss, f.done[k].lo, f.done[k].hi);
  }

  /** Whose first packet was taken by one of the first n reads was returned by one of them. */
  lemma ReadOf(mss: nat, f: Flow, n: nat, j: nat) returns (k: nat)
    requires FlowInv(mss, f) && n <= |f.done| && j < |f.msgs|
    requires |Stream(f.msgs[..j], mss)| in Got(f.done[..n])
    ensures k < n && Returns(mss, f.msgs, f.done[k], j)
  {
    hide InUse, Accounted, GoodReads, Stream, Got;
    k := GotFrom(f.done[..n], |Stream(f.msgs[..j], mss)|);
    var i := ReadReturnsMessage(mss, f, k);
    if i < j {
      Offsets(f.msgs, mss, i, j);
      if i + 1 < j { Offsets(f.msgs, mss, i + 1, j); }
    } else if j < i {
      Offsets(f.msgs, mss, j, i);
    }
  }

  lemma NoMessageTwice(mss: nat, f: Flow, k1: nat, k2: nat, j: nat)
    requires FlowInv(mss, f) && k1 < k2 < |f.done|
    ensures !(Returns(mss, f.msgs, f.done[k1], j) && Returns(mss, f.msgs, f.done[k2], j))
  {
    var d1, d2 := f.done[k1], f.done[k2];
    assert GoodRead(Sent(mss, f), f.done[..k2], d2) && GoodRead(Sent(mss, f), f.done[..k1], d1);
    GotHas(f.done[..k2], k1, d1.lo);
  }

  lemma EarlierWereRead(mss: nat, f: Flow, k: nat, j: nat, i: nat) returns (k': nat)
    requires FlowInv(mss, f) && k < |f.done| && Returns(mss, f.msgs, f.done[k], j)
    requires f.msgs[j].inOrder && i < j
    ensures k' < k && Returns(mss, f.msgs, f.done[k'], i)
  {
    hide InUse, Accounted, Stream, Got;
    var m := ReadReturnsMessage(mss, f, k);
    if m < j { Offsets(f.msgs, mss, m, j); }
    if j < m { Offsets(f.msgs, mss, j, m); }
    Offsets(f.msgs, mss, i, j);
    assert GoodRead(Sent(mss, f), f.done[..k], f.done[k]);
    k' := ReadOf(mss, f, k, i);
  }

  lemma PassedWasRead(mss: nat, f: Flow, j: nat) returns (k: nat)
    requires FlowInv(mss, f) && j < |f.msgs| && |Stream(f.msgs[..j], mss)| < f.start
    ensures k < |f.done| && Returns(mss, f.msgs, f.done[k], j)
  {
    hide InUse, GoodReads, Stream, Got;
    assert f.done[..|f.done|] == f.done;
    k := ReadOf(mss, f, |f.done|, j);
  }

  ghost function MsgRunFromStart(mss: nat, size: nat, es: seq<MsgEvent>): (f: Flow)
    requires mss > 0 && size > 0
    ensures FlowInv(mss, f)
  {
    InitialFlowInv(mss, size);
    MsgRun(mss, InitialFlow(size), es)
  }

  /** Read number k returned message j. */
  ghost predicate ReadReturns(mss: nat, f: Flow, k: int, j: int)
    requires mss > 0
  {
    0 <= k < |f.done| && Returns(mss, f.msgs, f.done[k], j)
  }

  ghost predicate ReturnsSome(mss: nat, f: Flow, k: int)
    requires mss > 0
  {
    exists j :: ReadReturns(mss, f, k, j)
  }

  /** One of the first n reads returned message j. */
  ghost predicate ReturnedBefore(mss: nat, f: Flow, n: int, j: int)
    requires mss > 0
  {
    exists k :: k < n && ReadReturns(mss, f, k, j)
  }

  /** The read position has passed the beginning of message j. */
  ghost predicate Passed(mss: nat, f: Flow, j: int)
    requires mss > 0
  {
    0 <= j < |f.msgs| && |Stream(f.msgs[..j], mss)| < f.start
  }

  /**
   Message mode, for every order of arrivals, acknowledgements and reads: each read that takes something
   returns one whole message, no message is returned twice, an order-flagged message is returned only after
   all the messages before it, and whatever the read position has passed was returned.
   */
  lemma MessagesExactlyOnce(mss: nat, size: nat, es: seq<MsgEvent>)
    requires mss > 0 && size > 0
    ensures var f := MsgRunFromStart(mss, size, es);
            && (forall k :: 0 <= k < |f.done| ==> ReturnsSome(mss, f, k))
            && (forall k1, k2, j :: ReadReturns(mss, f, k1, j) && ReadReturns(mss, f, k2, j) ==> k1 == k2)
            && (forall k, j, i :: ReadReturns(mss, f, k, j) && f.msgs[j].inOrder && 0 <= i < j
                  ==> ReturnedBefore(mss, f, k, i))
            && (forall j :: Passed(mss, f, j) ==> ReturnedBefore(mss, f, |f.done|, j))
  {
    hide FlowInv, Stream, MsgRun;
    var f := MsgRunFromStart(mss, size, es);
    forall k | 0 <= k < |f.done|
      ensures ReturnsSome(mss, f, k)
    {
      var j := ReadReturnsMessage(mss, f, k);
      assert ReadReturns(mss, f, k, j);
    }
    forall k1, k2, j | ReadReturns(mss, f, k1, j) && ReadReturns(mss, f, k2, j)
      ensures k1 == k2
    {
      ReturnsInside(mss, f.msgs, f.done[k1], j);
      if k1 < k2 { NoMessageTwice(mss, f, k1, k2, j); }
      if k2 < k1 { NoMessageTwice(mss, f, k2, k1, j); }
    }
    forall k, j, i | ReadReturns(mss, f, k, j) && f.msgs[j].inOrder && 0 <= i < j
      ensures ReturnedBefore(mss, f, k, i)
    {
      var k' := EarlierWereRead(mss, f, k, j, i);
      assert ReadReturns(mss, f, k', i);
    }
    forall j | Passed(mss, f, j)
      ensures ReturnedBefore(mss, f, |f.done|, j)
    {
      var k := PassedWasRead(mss, f, j);
      assert ReadReturns(mss, f, k, j);
    }
  }

  lemma ReturnsInside(mss: nat, msgs: seq<Message>, d: Delivery, j: int)
    requires mss > 0 && Returns(mss, msgs, d, j)
    ensures 0 <= j < |msgs|
  {
  }

  // ----- a message that is longer than the ring -----

  function Arrivals(k: nat, n: nat): (es: seq<MsgEvent>)
    requires k <= n
    decreases n - k
  {
    if k == n then [] else [Arrive(k)] + Arrivals(k + 1, n)
  }

  /** The first k packets of the only message have arrived, in order. */
  ghost predicate Arriving(mss: nat, f: Flow, m: Message, k: nat)
    requires mss > 0
  {
    && Sent(mss, f) == PacketsOf(m, mss) && f.start == 0
    && k < |f.ring.cells| <= |PacketsOf(m, mss)| && f.ring.dataSize == 0 && f.ring.maxPos == Max(k - 1, 0)
    && forall i :: 0 <= i < |f.ring.cells| ==>
         f.ring.cells[i] == if i < k then Unread(PacketsOf(m, mss)[i]) else Empty
  }

  lemma ArriveStep(mss: nat, f: Flow, m: Message, k: nat)
    requires mss > 0 && Arriving(mss, f, m, k) && k + 1 < |f.ring.cells|
    ensures Arriving(mss, MsgStep(mss, f, Arrive(k)), m, k + 1)
    ensures |MsgStep(mss, f, Arrive(k)).ring.cells| == |f.ring.cells|
  {
    hide Stream, PacketsOf;
  }

  lemma {:induction false} ArrivalsFill(mss: nat, f: Flow, m: Message, k: nat)
    requires mss > 0 && FlowInv(mss, f) && Arriving(mss, f, m, k) && |f.ring.cells| > 2
    ensures FilledByOne(MsgRun(mss, f, Arrivals(k, |f.ring.cells| - 1)).ring)
    decreases |f.ring.cells| - k
  {
    hide FlowInv, MsgStep, Stream;
    if k + 1 < |f.ring.cells| {
      MsgStepKeeps(mss, f, Arrive(k));
      ArriveStep(mss, f, m, k);
      var n, f1 := |f.ring.cells| - 1, MsgStep(mss, f, Arrive(k));
      assert Arrivals(k, n)[0] == Arrive(k) && Arrivals(k, n)[1..] == Arrivals(k + 1, n);
      ArrivalsFill(mss, f1, m, k + 1);
    }
  }

  /** A message of at least as many packets as the ring has slots fills the ring when it arrives in order. */
  lemma LongMessageFills(mss: nat, size: nat, m: Message)
    requires mss > 0 && size > 2 && |PacketsOf(m, mss)| >= size
    ensures FilledByOne(MsgRunFromStart(mss, size, [Submit(m)] + Arrivals(0, size - 1)).ring)
  {
    hide FlowInv, PacketsOf;
    var f0, es := InitialFlow(size), [Submit(m)] + Arrivals(0, size - 1);
    InitialFlowInv(mss, size);
    MsgStepKeeps(mss, f0, Submit(m));
    assert es[0] == Submit(m) && es[1..] == Arrivals(0, size - 1);
    var f1 := MsgStep(mss, f0, Submit(m));
    if m.data == [] { NoPackets(m, mss); }
    OneMessage(m, mss);
    ArrivalsFill(mss, f1, m, 0);
  }

  lemma NoPackets(m: Message, mss: nat)
    requires mss > 0 && m.data == []
    ensures PacketsOf(m, mss) == []
  {
  }

  lemma OneMessage(m: Message, mss: nat)
    requires mss > 0
    ensures Stream([m], mss) == PacketsOf(m, mss)
  {
    assert [m][..0] == [];
  }

  /** From then on nothing is ever returned again, whatever arrives, is acknowledged or is submitted. */
  lemma {:induction false} FilledForGood(mss: nat, f: Flow, es: seq<MsgEvent>)
    requires mss > 0 && FlowInv(mss, f) && FilledByOne(f.ring)
    ensures MsgRun(mss, f, es).done == f.done && FilledByOne(MsgRun(mss, f, es).ring)
    decreases |es|
  {
    hide FlowInv, MsgStep, FilledByOne;
    if es != [] {
      MsgStepKeeps(mss, f, es[0]);
      StaysFilled(mss, f, es[0]);
      FilledForGood(mss, MsgStep(mss, f, es[0]), es[1..]);
    }
  }

  lemma StaysFilled(mss: nat, f: Flow, e: MsgEvent)
    requires mss > 0 && f.ring.dataSize + f.ring.maxPos < |f.ring.cells| && FilledByOne(f.ring)
    ensures MsgStep(mss, f, e).done == f.done && FilledByOne(MsgStep(mss, f, e).ring)
  {
    hide ReadMsg, ScanMsg, Stream;
    match e
    case Read(len) => LongMessageIsStuck(f.ring, len);
    case _ =>
  }
}
