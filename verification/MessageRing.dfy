/**
 The receive ring in message mode (CRcvBuffer::scanMsg and readMsg, src/udt/src/buffer.cpp), seen from the
 read position: cell i lies i slots past it, the ACK position dataSize slots past it.
 */
module MessageRing {
  import opened Common
  import opened Messages

  /** A slot: no unit, a unit with flag 1, or a unit that was read before its turn (flag 2). */
  datatype Cell = Empty | Unread(packet: DataPacket) | Consumed(packet: DataPacket)

  datatype MsgRing = MsgRing(cells: seq<Cell>, dataSize: nat, maxPos: nat)

  // ----- the operations -----

  /** addData: the arriving packet goes `offset` cells past the ACK position, unless that cell is taken. */
  function Add(r: MsgRing, offset: nat, packet: DataPacket): MsgRing
    requires r.dataSize + offset < |r.cells|
  {
    var r1 := r.(maxPos := Max(r.maxPos, offset));
    var at := r.dataSize + offset;
    if r.cells[at] != Empty then r1 else r1.(cells := r.cells[at := Unread(packet)])
  }

  function Ack(r: MsgRing, len: nat): MsgRing
    requires r.dataSize + len < |r.cells|
  {
    r.(dataSize := r.dataSize + len, maxPos := Max(r.maxPos - len, 0))
  }

  /** The read position moves on by one cell, whose unit is given back. */
  function Drop(r: MsgRing): MsgRing
    requires 0 < r.dataSize <= |r.cells|
  {
    MsgRing(r.cells[1..] + [Empty], r.dataSize - 1, r.maxPos)
  }

  /** The look-ahead of scanMsg: from cell i on, the acknowledged part of a message is there and unread. */
  function LooksGood(cells: seq<Cell>, i: nat, end: nat): bool
    requires i <= end <= |cells|
    decreases end - i
  {
    if i == end then true
    else if !cells[i].Unread? then false
    else if cells[i].packet.msg.last then true
    else LooksGood(cells, i + 1, end)
  }

  /** scanMsg skips what does not begin a message. */
  function Skip(r: MsgRing): (r': MsgRing)
    requires r.dataSize <= |r.cells|
    ensures r'.dataSize <= r.dataSize && |r'.cells| == |r.cells| && r'.maxPos == r.maxPos
    decreases r.dataSize
  {
    if r.dataSize == 0 then r
    else if r.cells[0].Unread? && r.cells[0].packet.msg.first && LooksGood(r.cells, 0, r.dataSize) then r
    else Skip(Drop(r))
  }

  /** Where a scan ended: `q` is the last cell looked at, `p` the head of the message it belongs to, or -1. */
  datatype Scan = Scan(found: bool, p: int, q: nat)

  /** The search of scanMsg from cell q to cell n. */
  function Find(cells: seq<Cell>, ds: nat, p: int, q: nat, n: nat): (s: Scan)
    requires -1 <= p < q <= n + 1 && n < |cells|
    ensures -1 <= s.p <= s.q && s.p <= n && s.q <= n + 1 && (s.found ==> 0 <= s.p && s.q <= n)
        && (!s.found ==> s.q == n + 1)
    decreases n + 1 - q
  {
    if q == n + 1 then Scan(false, p, q)
    else if !cells[q].Unread? then Find(cells, ds, -1, q + 1, n)
    else
      var msg := cells[q].packet.msg;
      var p1: int := if msg.first then q else p;
      if msg.last && p1 != -1 && (q < ds || !msg.inOrder) then Scan(true, p1, q)
      else Find(cells, ds, p1, q + 1, n)
  }

  /** The search starts at the read position and ends at the farthest packet that has arrived. */
  function Search(r: MsgRing): (s: Scan)
    requires r.dataSize + r.maxPos < |r.cells|
    ensures s.found ==> 0 <= s.p <= s.q < |r.cells|
    ensures -1 <= s.p < |r.cells| && s.p <= s.q <= |r.cells| && (!s.found ==> s.p < s.q)
  {
    Find(r.cells, r.dataSize, -1, 0, r.dataSize + r.maxPos)
  }

  /** What readMsg did: how far the read position moved, which cells it delivered, and the bytes. */
  datatype Reading = Reading(ring: MsgRing, moved: nat, taken: Option<Range>, data: seq<byte>)

  /** The first bytes, as many as asked for. */
  function Cut(data: seq<byte>, len: nat): seq<byte> {
    data[..Min(len, |data|)]
  }

  function CellPayloads(cells: seq<Cell>): (bs: seq<Block>)
    ensures |bs| == |cells|
    ensures forall i :: 0 <= i < |bs| ==> bs[i] == if cells[i] == Empty then [] else cells[i].packet.payload
  {
    seq(|cells|, i requires 0 <= i < |cells| => if cells[i] == Empty then [] else cells[i].packet.payload)
  }

  /** The cells from p to q were read before all of them are acknowledged: they stay, marked. */
  function Mark(cells: seq<Cell>, p: nat, q: nat): (cs: seq<Cell>)
    requires p <= q < |cells|
    ensures |cs| == |cells|
    ensures forall i :: 0 <= i < |cs| ==>
        cs[i] == if p <= i <= q && cells[i] != Empty then Consumed(cells[i].packet) else cells[i]
  {
    seq(|cells|, i requires 0 <= i < |cells| =>
      if p <= i <= q && cells[i] != Empty then Consumed(cells[i].packet) else cells[i])
  }

  /** The cells from p to q are emptied and the read position moves behind q. */
  function Release(cells: seq<Cell>, p: nat, q: nat): (cs: seq<Cell>)
    requires p <= q < |cells|
    ensures |cs| == |cells|
  {
    cells[q + 1..] + cells[..p] + seq(q + 1 - p, _ => Empty)
  }

  /** scanMsg: the ring after the skipping, and the message it settles on. */
  function ScanMsg(r: MsgRing): (res: (MsgRing, Scan))
    requires r.dataSize + r.maxPos < |r.cells|
    ensures res.0.dataSize <= r.dataSize && |res.0.cells| == |r.cells| && res.0.maxPos == r.maxPos
    ensures res.1.found ==> 0 <= res.1.p <= res.1.q
    ensures res.1.found && res.1.q + 1 != res.1.p + |r.cells| ==> res.1.q < |r.cells|
  {
    if r.dataSize == 0 && r.maxPos == 0 then
      (r, Scan(false, -1, 0))
    else
      var r1 := Skip(r);
      var s := Search(r1);
      // A message that fills the ring without its end is "returned in part".
      if !s.found && s.p != -1 && s.q + 1 == s.p + |r.cells| then (r1, s.(found := true)) else (r1, s)
  }

  /** The cells from s.p to s.q are copied out; they are given back, or marked when not all are acknowledged. */
  function Deliver(r: MsgRing, s: Scan, len: nat): Reading
    requires 0 <= s.p <= s.q < |r.cells|
  {
    var data := Cut(Flatten(CellPayloads(r.cells[s.p..s.q + 1])), len);
    if s.q < r.dataSize then
      Reading(MsgRing(Release(r.cells, s.p, s.q), r.dataSize - (s.q + 1), r.maxPos), s.q + 1, Some(Range(s.p, s.q)),
          data)
    else
      Reading(r.(cells := Mark(r.cells, s.p, s.q)), 0, Some(Range(s.p, s.q)), data)
  }

  /** The same reading, counted from k cells before. */
  function Further(k: nat, rd: Reading): Reading {
    Reading(rd.ring, k + rd.moved,
      if rd.taken == None then None else Some(Range(k + rd.taken.value.lo, k + rd.taken.value.hi)), rd.data)
  }

  /** readMsg: a message that fills the ring is found, but none of it is copied. */
  function ReadMsg(r: MsgRing, len: nat): Reading
    requires r.dataSize + r.maxPos < |r.cells|
  {
    var r1, s := ScanMsg(r).0, ScanMsg(r).1;
    var k := r.dataSize - r1.dataSize;
    if !s.found || s.q + 1 == s.p + |r.cells| then
      Reading(r1, k, None, [])
    else
      Further(k, Deliver(r1, s, len))
  }

  // ----- what a ring in use looks like -----

  /** Neighbours in the packet stream: a message ends exactly where the next begins. */
  ghost predicate Adjacent(flow: seq<DataPacket>) {
    forall i, j :: 0 <= i < j < |flow| && j == i + 1 ==>
      && (flow[i].msg.last <==> flow[j].msg.first)
      && (!flow[j].msg.first ==> flow[i].msg.inOrder == flow[j].msg.inOrder)
  }

  /** The fragments of one message were all read or all not. */
  ghost predicate Uniform(cells: seq<Cell>, flow: seq<DataPacket>) {
    forall i, j :: 0 <= i < j < |cells| && j == i + 1 && j < |flow| && !flow[j].msg.first ==>
      (cells[i].Consumed? <==> cells[j].Consumed?)
  }

  /** The cells hold what was sent, flow being the packets from the read position on. */
  ghost predicate HoldsFlow(cells: seq<Cell>, flow: seq<DataPacket>) {
    forall i :: 0 <= i < |cells| && cells[i] != Empty ==> i < |flow| && cells[i].packet == flow[i]
  }

  ghost predicate InUse(r: MsgRing, flow: seq<DataPacket>) {
    && r.dataSize + r.maxPos < |r.cells|
    && HoldsFlow(r.cells, flow)
    && (forall i :: 0 <= i < r.dataSize ==> r.cells[i] != Empty)
    && (forall i :: r.dataSize + r.maxPos < i < |r.cells| ==> r.cells[i] == Empty)
    && r.cells[|r.cells| - 1] == Empty
    && Adjacent(flow)
    && Uniform(r.cells, flow)
    && (flow != [] && !flow[0].msg.first ==> r.cells[0].Consumed?)
  }

  /** The cells from a to b are a whole message that may be read now. */
  ghost predicate Deliverable(cells: seq<Cell>, ds: nat, flow: seq<DataPacket>, a: int, b: int) {
    && IsMessage(flow, a, b) && b < |cells|
    && (forall j :: a <= j <= b ==> cells[j].Unread?)
    && (b < ds || !flow[b].msg.inOrder)
  }

  /** The cells from p on, moved to the front. */
  ghost predicate Moved(cells: seq<Cell>, k: nat, cells': seq<Cell>) {
    && |cells'| == |cells|
    && forall i :: 0 <= i < |cells| ==> cells'[i] == if i + k < |cells| then cells[i + k] else Empty
  }

  // ----- skipping -----

  lemma {:induction false} FrontLooksGood(r: MsgRing, flow: seq<DataPacket>, i: nat)
    requires InUse(r, flow) && i <= r.dataSize
    requires forall j :: 0 <= j < i ==> r.cells[j].Unread? && !flow[j].msg.last
    requires i == 0 ==> r.dataSize == 0 || r.cells[0].Unread?
    ensures LooksGood(r.cells, i, r.dataSize)
    decreases r.dataSize - i
  {
    if i < r.dataSize {
      assert r.cells[i] != Empty;
      if i > 0 {
        assert !flow[i - 1].msg.last;
        assert r.cells[i].Unread?;
      }
      if !flow[i].msg.last {
        FrontLooksGood(r, flow, i + 1);
      }
    }
  }

  lemma DropInUse(r: MsgRing, flow: seq<DataPacket>)
    requires InUse(r, flow) && r.dataSize > 0 && r.cells[0].Consumed?
    ensures flow != [] && InUse(Drop(r), flow[1..])
  {
    var cs, fl := Drop(r).cells, flow[1..];
    forall i, j | 0 <= i < j < |cs| && j == i + 1 && j < |fl| && !fl[j].msg.first
      ensures cs[i].Consumed? <==> cs[j].Consumed?
    {
      assert fl[j] == flow[j + 1];
      assert j + 1 < |cs| ==> (r.cells[i + 1].Consumed? <==> r.cells[j + 1].Consumed?);
    }
    if fl != [] && !fl[0].msg.first {
      assert fl[0] == flow[1] && r.cells[1].Consumed?;
    }
  }

  /** Skipping gives back only units that were read, and ends at a message that was not. */
  lemma {:induction false} SkipKeeps(r: MsgRing, flow: seq<DataPacket>)
    requires InUse(r, flow)
    ensures var r1 := Skip(r);
            var k := r.dataSize - r1.dataSize;
            && k <= |flow| && InUse(r1, flow[k..]) && Moved(r.cells, k, r1.cells)
            && (forall i :: 0 <= i < k ==> r.cells[i].Consumed?)
            && (r1.dataSize > 0 ==> r1.cells[0].Unread?)
    decreases r.dataSize
  {
    hide InUse, LooksGood, Skip, Moved;
    SkipStep(r, flow);
    if r.dataSize > 0 && r.cells[0].Consumed? {
      DropInUse(r, flow);
      SkipKeeps(Drop(r), flow[1..]);
      var k := Drop(r).dataSize - Skip(r).dataSize;
      assert flow[1..][k..] == flow[k + 1..];
      DropMoves(r);
      MovedTwice(r.cells, Drop(r).cells, k, Skip(r).cells);
      DroppedConsumed(r, k);
    } else {
      assert flow[0..] == flow;
      MovedNowhere(r.cells);
    }
  }

  lemma DropMoves(r: MsgRing)
    requires 0 < r.dataSize <= |r.cells|
    ensures Moved(r.cells, 1, Drop(r).cells)
  {
  }

  lemma MovedNowhere(cells: seq<Cell>)
    ensures Moved(cells, 0, cells)
  {
  }

  lemma SkipStep(r: MsgRing, flow: seq<DataPacket>)
    requires InUse(r, flow)
    ensures r.dataSize < |r.cells|
    ensures r.dataSize == 0 || r.cells[0].Unread? ==> Skip(r) == r
    ensures r.dataSize > 0 && !r.cells[0].Unread? ==> r.cells[0].Consumed? && Skip(r) == Skip(Drop(r))
  {
    hide Adjacent, Uniform;
    if r.dataSize > 0 && r.cells[0].Unread? {
      FrontLooksGood(r, flow, 0);
    }
  }

  lemma DroppedConsumed(r: MsgRing, k: nat)
    requires 0 < r.dataSize <= |r.cells| && k < |r.cells| && r.cells[0].Consumed?
    requires forall i :: 0 <= i < k ==> Drop(r).cells[i].Consumed?
    ensures forall i :: 0 <= i < k + 1 ==> r.cells[i].Consumed?
  {
    forall i | 0 < i < k + 1
      ensures r.cells[i].Consumed?
    {
      assert Drop(r).cells[i - 1] == r.cells[i];
    }
  }

  lemma MovedTwice(cells: seq<Cell>, once: seq<Cell>, k: nat, cells': seq<Cell>)
    requires Moved(cells, 1, once) && Moved(once, k, cells')
    ensures Moved(cells, k + 1, cells')
  {
    forall i | 0 <= i < |cells|
      ensures cells'[i] == if i + k + 1 < |cells| then cells[i + k + 1] else Empty
    {
    }
  }

  // ----- searching -----

  /** From a to q - 1 there is the unread beginning of one message. */
  ghost predicate Open(cells: seq<Cell>, flow: seq<DataPacket>, a: int, q: int) {
    && 0 <= a < q <= |cells| && q <= |flow|
    && flow[a].msg.first
    && (forall j :: a <= j < q ==> cells[j].Unread?)
    && (forall j :: a < j < q ==> !flow[j].msg.first)
  }

  /** What the search knows at cell q. */
  ghost predicate Searched(cells: seq<Cell>, ds: nat, flow: seq<DataPacket>, p: int, q: int) {
    && -1 <= p < q
    && (p != -1 ==> Open(cells, flow, p, q))
    && (forall a :: Open(cells, flow, a, q) ==> p == a)
    && (forall a, b :: Deliverable(cells, ds, flow, a, b) ==> b >= q)
  }

  /** The end of an open message makes it whole. */
  lemma OpenEnds(cells: seq<Cell>, flow: seq<DataPacket>, p: int, q: int)
    requires Adjacent(flow) && HoldsFlow(cells, flow)
    requires Open(cells, flow, p, q + 1) && flow[q].msg.last
    ensures IsMessage(flow, p, q)
  {
    forall i | p <= i < q
      ensures !flow[i].msg.last
    {
      var j := i + 1;
      assert !flow[j].msg.first;
    }
  }

  lemma SearchStep(cells: seq<Cell>, ds: nat, flow: seq<DataPacket>, p: int, q: nat, q1: nat)
    requires Adjacent(flow) && HoldsFlow(cells, flow) && q < |cells| && q1 == q + 1
    requires Searched(cells, ds, flow, p, q)
    requires cells[q].Unread?
    ensures var p1: int := if flow[q].msg.first then q else p;
            && (p1 != -1 ==> Open(cells, flow, p1, q1))
            && (forall a :: Open(cells, flow, a, q1) ==> p1 == a)
            && (forall a :: Deliverable(cells, ds, flow, a, q) ==> p1 == a)
  {
    forall a | Open(cells, flow, a, q1)
      ensures (if flow[q].msg.first then q else p) == a
    {
      if a < q { assert Open(cells, flow, a, q); }
    }
    forall a | Deliverable(cells, ds, flow, a, q)
      ensures Open(cells, flow, a, q1)
    {
    }
  }

  lemma SearchGap(cells: seq<Cell>, ds: nat, flow: seq<DataPacket>, p: int, q: nat)
    requires Searched(cells, ds, flow, p, q) && q < |cells| && !cells[q].Unread?
    ensures Searched(cells, ds, flow, -1, q + 1)
  {
  }

  /** The search finds the deliverable message that ends first, and misses none. */
  lemma {:induction false} FindFirst(cells: seq<Cell>, ds: nat, flow: seq<DataPacket>, p: int, q: nat, n: nat)
    requires Adjacent(flow) && HoldsFlow(cells, flow) && n < |cells| && q <= n + 1
    requires Searched(cells, ds, flow, p, q)
    ensures var s := Find(cells, ds, p, q, n);
            && (s.found ==> Deliverable(cells, ds, flow, s.p, s.q))
            && forall a, b :: Deliverable(cells, ds, flow, a, b) ==> b >= s.q
    decreases n + 1 - q
  {
    hide Adjacent, HoldsFlow, Open, Searched, Deliverable, Find;
    FindStep(cells, ds, flow, p, q, n);
    if q <= n {
      if !cells[q].Unread? {
        SearchGap(cells, ds, flow, p, q);
        FindFirst(cells, ds, flow, -1, q + 1, n);
      } else {
        SearchHere(cells, ds, flow, p, q);
        var msg := flow[q].msg;
        var p1: int := if msg.first then q else p;
        if !(msg.last && p1 != -1 && (q < ds || !msg.inOrder)) {
          FindFirst(cells, ds, flow, p1, q + 1, n);
        }
      }
    }
  }

  /** One step of Find, in terms of the packets sent. */
  lemma FindStep(cells: seq<Cell>, ds: nat, flow: seq<DataPacket>, p: int, q: nat, n: nat)
    requires HoldsFlow(cells, flow) && n < |cells| && q <= n + 1 && Searched(cells, ds, flow, p, q)
    ensures -1 <= p < q
    ensures q == n + 1 ==> Find(cells, ds, p, q, n) == Scan(false, p, q)
    ensures q == n + 1 ==> forall a, b :: Deliverable(cells, ds, flow, a, b) ==> b >= q
    ensures q <= n && !cells[q].Unread? ==> Find(cells, ds, p, q, n) == Find(cells, ds, -1, q + 1, n)
    ensures q <= n && cells[q].Unread? ==>
              q < |flow| &&
              var msg := flow[q].msg;
              var p1: int := if msg.first then q else p;
              Find(cells, ds, p, q, n) ==
              if msg.last && p1 != -1 && (q < ds || !msg.inOrder) then Scan(true, p1, q)
              else Find(cells, ds, p1, q + 1, n)
  {
  }

  /** At an unread cell: either its message is deliverable, or the search goes on with nothing missed. */
  lemma SearchHere(cells: seq<Cell>, ds: nat, flow: seq<DataPacket>, p: int, q: nat)
    requires Adjacent(flow) && HoldsFlow(cells, flow) && q < |cells|
    requires Searched(cells, ds, flow, p, q) && cells[q].Unread?
    ensures q < |flow|
    ensures var msg := flow[q].msg;
            var p1: int := if msg.first then q else p;
            if msg.last && p1 != -1 && (q < ds || !msg.inOrder) then
              Deliverable(cells, ds, flow, p1, q) && forall a, b :: Deliverable(cells, ds, flow, a, b) ==> b >= q
            else
              Searched(cells, ds, flow, p1, q + 1)
  {
    hide Adjacent, Open;
    SearchStep(cells, ds, flow, p, q, q + 1);
    var msg := flow[q].msg;
    var p1: int := if msg.first then q else p;
    if msg.last && p1 != -1 {
      OpenEnds(cells, flow, p1, q);
      OpenIsUnread(cells, flow, p1, q + 1);
    }
  }

  lemma OpenIsUnread(cells: seq<Cell>, flow: seq<DataPacket>, a: int, q: int)
    requires Open(cells, flow, a, q)
    ensures forall j :: a <= j < q ==> cells[j].Unread?
  {
  }

  // ----- reading -----

  lemma {:induction false} FirstEnd(r: MsgRing, flow: seq<DataPacket>, i: nat, p: nat) returns (b: nat)
    requires InUse(r, flow) && i < p <= r.dataSize && p < |flow|
    requires r.cells[0].Unread? && flow[p].msg.first
    requires forall j :: 0 <= j < i ==> r.cells[j].Unread? && !flow[j].msg.last
    ensures b < p && Deliverable(r.cells, r.dataSize, flow, 0, b)
    decreases p - i
  {
    assert r.cells[i] != Empty;
    assert i > 0 ==> !flow[i - 1].msg.last;
    assert r.cells[i].Unread?;
    if flow[i].msg.last {
      b := i;
      forall j | 0 < j <= b
        ensures !flow[j].msg.first
      {
        assert !flow[j - 1].msg.last;
      }
    } else {
      b := FirstEnd(r, flow, i + 1, p);
    }
  }

  /** After the skipping, an acknowledged message is read from the very front. */
  lemma AckedIsFront(r: MsgRing, flow: seq<DataPacket>, p: int, q: int)
    requires InUse(r, flow) && (r.dataSize > 0 ==> r.cells[0].Unread?)
    requires Deliverable(r.cells, r.dataSize, flow, p, q) && q < r.dataSize
    requires forall a, b :: Deliverable(r.cells, r.dataSize, flow, a, b) ==> b >= q
    ensures p == 0
  {
    if p > 0 {
      var b := FirstEnd(r, flow, 0, p);
    }
  }

  /** The cells after a read: moved by k, and those from lo to hi, if still there, marked. */
  ghost predicate Taken(cells: seq<Cell>, k: nat, lo: int, hi: int, cells': seq<Cell>) {
    && |cells'| == |cells|
    && forall i :: 0 <= i < |cells| ==>
        cells'[i] == if i + k >= |cells| then Empty
                     else if lo <= i + k <= hi && cells[i + k] != Empty then Consumed(cells[i + k].packet)
                     else cells[i + k]
  }

  lemma MarkKeeps(r: MsgRing, flow: seq<DataPacket>, p: nat, q: nat)
    requires InUse(r, flow) && Deliverable(r.cells, r.dataSize, flow, p, q)
    ensures InUse(r.(cells := Mark(r.cells, p, q)), flow)
    ensures Taken(r.cells, 0, p, q, Mark(r.cells, p, q))
  {
    var cs := Mark(r.cells, p, q);
    forall i, j | 0 <= i < j < |cs| && j == i + 1 && j < |flow| && !flow[j].msg.first
      ensures cs[i].Consumed? <==> cs[j].Consumed?
    {
      assert r.cells[i].Consumed? <==> r.cells[j].Consumed?;
      assert !flow[i].msg.last;
    }
  }

  lemma AdjacentTail(flow: seq<DataPacket>, k: nat)
    requires Adjacent(flow) && k <= |flow|
    ensures Adjacent(flow[k..])
  {
    var fl := flow[k..];
    forall i, j | 0 <= i < j < |fl| && j == i + 1
      ensures fl[i].msg.last <==> fl[j].msg.first
      ensures !fl[j].msg.first ==> fl[i].msg.inOrder == fl[j].msg.inOrder
    {
      assert fl[i] == flow[i + k] && fl[j] == flow[j + k];
    }
  }

  lemma ReleaseKeeps(r: MsgRing, flow: seq<DataPacket>, q: nat)
    requires InUse(r, flow) && Deliverable(r.cells, r.dataSize, flow, 0, q) && q < r.dataSize
    ensures InUse(MsgRing(Release(r.cells, 0, q), r.dataSize - (q + 1), r.maxPos), flow[q + 1..])
    ensures Taken(r.cells, q + 1, 0, q, Release(r.cells, 0, q))
  {
    var k, cs, fl := q + 1, Release(r.cells, 0, q), flow[q + 1..];
    forall i, j | 0 <= i < j < |cs| && j == i + 1 && j < |fl| && !fl[j].msg.first
      ensures cs[i].Consumed? <==> cs[j].Consumed?
    {
      assert fl[j] == flow[j + k];
      assert j + k < |cs| ==> (r.cells[i + k].Consumed? <==> r.cells[j + k].Consumed?);
    }
    AdjacentTail(flow, k);
    assert fl != [] ==> flow[q].msg.last && flow[q + 1].msg.first;
  }

  /** Deliverable messages do not depend on where one counts from. */
  lemma DeliverableMoves(cells: seq<Cell>, ds: nat, flow: seq<DataPacket>, k: nat, cells': seq<Cell>, a: int, b: int)
    requires Moved(cells, k, cells') && k <= ds && k <= |flow| && 0 <= a
    ensures Deliverable(cells', ds - k, flow[k..], a, b) <==> Deliverable(cells, ds, flow, a + k, b + k)
  {
    var fl := flow[k..];
    if Deliverable(cells, ds, flow, a + k, b + k) {
      forall i | a <= i <= b
        ensures cells'[i].Unread? && (i > a ==> !fl[i].msg.first) && (i < b ==> !fl[i].msg.last)
      {
        assert cells[i + k].Unread? && fl[i] == flow[i + k];
      }
    }
    if Deliverable(cells', ds - k, fl, a, b) {
      forall i | a + k <= i <= b + k
        ensures i < |cells| && cells[i].Unread? && (i > a + k ==> !flow[i].msg.first)
            && (i < b + k ==> !flow[i].msg.last)
      {
        assert cells'[i - k].Unread? && fl[i - k] == flow[i];
      }
    }
  }

  lemma PayloadsAgree(cells: seq<Cell>, flow: seq<DataPacket>, p: nat, q: nat)
    requires HoldsFlow(cells, flow) && p <= q < |cells| && q < |flow|
    requires forall j :: p <= j <= q ==> cells[j].Unread?
    ensures CellPayloads(cells[p..q + 1]) == PayloadsOf(flow[p..q + 1])
  {
  }

  /** Nothing can be read. */
  ghost predicate NothingReady(r: MsgRing, flow: seq<DataPacket>) {
    forall a, b :: !Deliverable(r.cells, r.dataSize, flow, a, b)
  }

  lemma NothingBehind(r: MsgRing, flow: seq<DataPacket>, a: int, b: int)
    requires InUse(r, flow)
    ensures b > r.dataSize + r.maxPos ==> !Deliverable(r.cells, r.dataSize, flow, a, b)
  {
  }

  /** What readMsg does to a ring from which the skipping has nothing to give back. */
  lemma ScanSettles(r: MsgRing, flow: seq<DataPacket>)
    requires InUse(r, flow) && (r.dataSize > 0 ==> r.cells[0].Unread?)
    ensures var s := Search(r);
            if s.found then
              && Deliverable(r.cells, r.dataSize, flow, s.p, s.q)
              && (forall a, b :: Deliverable(r.cells, r.dataSize, flow, a, b) ==> b >= s.q)
              && (s.q < r.dataSize ==> s.p == 0)
            else
              NothingReady(r, flow)
  {
    var n := r.dataSize + r.maxPos;
    var s := Find(r.cells, r.dataSize, -1, 0, n);
    assert Searched(r.cells, r.dataSize, flow, -1, 0);
    FindFirst(r.cells, r.dataSize, flow, -1, 0, n);
    if s.found && s.q < r.dataSize {
      AckedIsFront(r, flow, s.p, s.q);
    }
    if !s.found {
      forall a, b
        ensures !Deliverable(r.cells, r.dataSize, flow, a, b)
      {
        NothingBehind(r, flow, a, b);
      }
    }
  }

  /** The read position may move on from where the skipping left it. */
  lemma TakenAfterMoved(cells: seq<Cell>, k: nat, mid: seq<Cell>, m: nat, p: int, q: int, cells': seq<Cell>)
    requires Moved(cells, k, mid) && Taken(mid, m, p, q, cells')
    ensures Taken(cells, k + m, p + k, q + k, cells')
  {
    forall i | 0 <= i < |cells|
      ensures cells'[i] == if i + (k + m) >= |cells| then Empty
          else if p + k <= i + (k + m) <= q + k && cells[i + (k + m)] != Empty then Consumed(cells[i + (k + m)].packet)
          else cells[i + (k + m)]
    {
      var j := i + m;
      assert j < |cells| ==> mid[j] == if j + k < |cells| then cells[j + k] else Empty;
    }
  }

  /** readMsg's contract: what the result says about the ring before. */
  ghost predicate ReadsWell(r: MsgRing, flow: seq<DataPacket>, len: nat, rd: Reading) {
    && rd.moved <= |flow| && rd.moved <= |r.cells|
    && InUse(rd.ring, flow[rd.moved..])
    && match rd.taken
       case None =>
         && rd.data == [] && Moved(r.cells, rd.moved, rd.ring.cells)
         && (forall i :: 0 <= i < rd.moved ==> r.cells[i].Consumed?)
         && NothingReady(r, flow)
       case Some(g) =>
         && Deliverable(r.cells, r.dataSize, flow, g.lo, g.hi)
         && (forall a, b :: Deliverable(r.cells, r.dataSize, flow, a, b) ==> b >= g.hi)
         && rd.data == Cut(Flatten(PayloadsOf(flow[g.lo..g.hi + 1])), len)
         && Taken(r.cells, rd.moved, g.lo, g.hi, rd.ring.cells)
         && (forall i :: 0 <= i < rd.moved ==> r.cells[i].Consumed? || g.lo <= i <= g.hi)
         && (g.hi < r.dataSize ==> rd.moved == g.hi + 1)
  }

  /** The same for a ring from which the skipping has nothing to give back. */
  function ReadSettled(r: MsgRing, len: nat): Reading
    requires r.dataSize + r.maxPos < |r.cells|
  {
    var s := Search(r);
    if s.found then Deliver(r, s, len) else Reading(r, 0, None, [])
  }

  lemma SettledReadsWell(r: MsgRing, flow: seq<DataPacket>, len: nat)
    requires InUse(r, flow) && (r.dataSize > 0 ==> r.cells[0].Unread?)
    ensures ReadsWell(r, flow, len, ReadSettled(r, len))
  {
    hide Search, InUse, Deliverable, NothingReady, ReadsWell;
    Bounds(r, flow);
    ScanSettles(r, flow);
    var s := Search(r);
    if s.found {
      if s.q < r.dataSize {
        ReleasedReadsWell(r, flow, len, s.q);
      } else {
        MarkedReadsWell(r, flow, len, s.p, s.q);
      }
    } else {
      NothingReadsWell(r, flow, len);
    }
  }

  lemma Bounds(r: MsgRing, flow: seq<DataPacket>)
    requires InUse(r, flow)
    ensures r.dataSize + r.maxPos < |r.cells|
  {
  }

  lemma NothingReadsWell(r: MsgRing, flow: seq<DataPacket>, len: nat)
    requires InUse(r, flow) && NothingReady(r, flow)
    ensures ReadsWell(r, flow, len, Reading(r, 0, None, []))
  {
    hide NothingReady;
    assert flow[0..] == flow;
  }

  lemma ReleasedReadsWell(r: MsgRing, flow: seq<DataPacket>, len: nat, q: nat)
    requires InUse(r, flow) && Deliverable(r.cells, r.dataSize, flow, 0, q) && q < r.dataSize
    requires forall a, b :: Deliverable(r.cells, r.dataSize, flow, a, b) ==> b >= q
    ensures ReadsWell(r, flow, len, Reading(MsgRing(Release(r.cells, 0, q), r.dataSize - (q + 1), r.maxPos), q + 1,
        Some(Range(0, q)), Cut(Flatten(CellPayloads(r.cells[0..q + 1])), len)))
  {
    hide InUse, Cut, Flatten, Release, Taken;
    DeliverableBounds(r, flow, 0, q);
    PayloadsAgree(r.cells, flow, 0, q);
    ReleaseKeeps(r, flow, q);
  }

  lemma MarkedReadsWell(r: MsgRing, flow: seq<DataPacket>, len: nat, p: nat, q: nat)
    requires InUse(r, flow) && Deliverable(r.cells, r.dataSize, flow, p, q) && q >= r.dataSize
    requires forall a, b :: Deliverable(r.cells, r.dataSize, flow, a, b) ==> b >= q
    ensures ReadsWell(r, flow, len, Reading(r.(cells := Mark(r.cells, p, q)), 0,
        Some(Range(p, q)), Cut(Flatten(CellPayloads(r.cells[p..q + 1])), len)))
  {
    hide InUse, Cut, Flatten, Taken;
    DeliverableBounds(r, flow, p, q);
    PayloadsAgree(r.cells, flow, p, q);
    MarkKeeps(r, flow, p, q);
    assert flow[0..] == flow;
  }

  lemma DeliverableBounds(r: MsgRing, flow: seq<DataPacket>, p: int, q: int)
    requires InUse(r, flow) && Deliverable(r.cells, r.dataSize, flow, p, q)
    ensures 0 <= p <= q < |flow| && q + 1 < |r.cells| && HoldsFlow(r.cells, flow)
    ensures forall j :: p <= j <= q ==> r.cells[j].Unread?
  {
  }

  lemma ScanSkips(r: MsgRing)
    requires r.dataSize + r.maxPos < |r.cells| && (r.dataSize > 0 || r.maxPos > 0)
    ensures var r1, s := ScanMsg(r).0, ScanMsg(r).1;
            var f := Search(Skip(r));
            && r1 == Skip(r)
            && (f.found ==> s == f)
            && (!f.found ==> !s.found || s.q + 1 == s.p + |r.cells|)
  {
    hide Search, Skip;
  }

  lemma ReadIsSettled(r: MsgRing, len: nat, r1: MsgRing, s: Scan)
    requires r.dataSize + r.maxPos < |r.cells| && (r.dataSize > 0 || r.maxPos > 0)
    requires r1 == Skip(r) && s == Search(r1) && (s.found ==> s.q + 1 < |r.cells|)
    ensures ReadMsg(r, len) == Further(r.dataSize - r1.dataSize, ReadSettled(r1, len))
  {
    hide *;
    ScanSkips(r);
    ReadMsgCases(r, len);
    SettledCases(r1, len);
    if s.found {
      assert ScanMsg(r).1 == s && s.q + 1 != s.p + |r.cells|;
    }
  }

  lemma ReadMsgCases(r: MsgRing, len: nat)
    requires r.dataSize + r.maxPos < |r.cells|
    ensures var r1, s := ScanMsg(r).0, ScanMsg(r).1;
            && (!s.found || s.q + 1 == s.p + |r.cells| ==>
                  ReadMsg(r, len) == Further(r.dataSize - r1.dataSize, Reading(r1, 0, None, [])))
            && (s.found && s.q + 1 != s.p + |r.cells| ==>
                  ReadMsg(r, len) == Further(r.dataSize - r1.dataSize, Deliver(r1, s, len)))
  {
    hide ScanMsg, Deliver;
  }

  lemma SettledCases(r: MsgRing, len: nat)
    requires r.dataSize + r.maxPos < |r.cells|
    ensures var s := Search(r);
            ReadSettled(r, len) == if s.found then Deliver(r, s, len) else Reading(r, 0, None, [])
  {
    hide Search, Deliver;
  }

  /** Nothing is acknowledged, and the only packet there, at the ACK position itself, is a message that needs no ACK. */
  ghost predicate Overlooked(r: MsgRing)
    requires |r.cells| > 0
  {
    && r.dataSize == 0 && r.maxPos == 0 && r.cells[0].Unread?
    && r.cells[0].packet.msg.first && r.cells[0].packet.msg.last && !r.cells[0].packet.msg.inOrder
  }

  /**
   readMsg delivers the first whole message that may be read, or nothing when there is none, if and only if
   the scan does not overlook the one message that is there.
   */
  lemma ReadMsgReadsWell(r: MsgRing, flow: seq<DataPacket>, len: nat)
    requires InUse(r, flow)
    ensures r.dataSize + r.maxPos < |r.cells|
    ensures ReadsWell(r, flow, len, ReadMsg(r, len)) <==> !Overlooked(r)
    ensures Overlooked(r) ==> ReadMsg(r, len) == Reading(r, 0, None, [])
  {
    hide InUse, ReadsWell, Search, Skip, Moved, ReadMsg, ReadSettled, Further;
    Bounds(r, flow);
    if r.dataSize == 0 && r.maxPos == 0 {
      EmptyReads(r, len);
      EmptyReadsWell(r, flow, len);
    } else {
      var k := r.dataSize - Skip(r).dataSize;
      SkipKeeps(r, flow);
      SettledReadsWell(Skip(r), flow[k..], len);
      FoundInside(Skip(r), flow[k..]);
      ReadIsSettled(r, len, Skip(r), Search(Skip(r)));
      ReadsWellMoves(r, flow, len, Skip(r), k, ReadSettled(Skip(r), len));
    }
  }

  lemma EmptyReadsWell(r: MsgRing, flow: seq<DataPacket>, len: nat)
    requires InUse(r, flow) && r.dataSize == 0 && r.maxPos == 0
    ensures |r.cells| > 0
    ensures ReadsWell(r, flow, len, Reading(r, 0, None, [])) <==> !Overlooked(r)
  {
    hide InUse;
    Bounds(r, flow);
    OverlookedIs(r, flow);
    assert flow[0..] == flow;
  }

  lemma OverlookedIs(r: MsgRing, flow: seq<DataPacket>)
    requires InUse(r, flow) && r.dataSize == 0 && r.maxPos == 0
    ensures |r.cells| > 0 && (NothingReady(r, flow) <==> !Overlooked(r))
  {
    hide Adjacent, Uniform;
    if Overlooked(r) {
      assert Deliverable(r.cells, 0, flow, 0, 0);
    }
    forall a, b | Deliverable(r.cells, 0, flow, a, b)
      ensures Overlooked(r)
    {
      assert r.cells[b].Unread? && r.cells[a].Unread?;
    }
  }

  /** Such a ring: one unordered message has arrived first, is there to be read, and is not returned. */
  lemma UnorderedCanBeOverlooked(payload: Block, len: nat)
    ensures var packet := DataPacket(payload, MsgField(1, false, true, true));
            var r := MsgRing([Unread(packet), Empty, Empty], 0, 0);
            InUse(r, [packet]) && Deliverable(r.cells, 0, [packet], 0, 0) && ReadMsg(r, len) == Reading(r, 0, None, [])
  {
  }

  lemma FoundInside(r: MsgRing, flow: seq<DataPacket>)
    requires InUse(r, flow) && (r.dataSize > 0 ==> r.cells[0].Unread?)
    ensures var s := Search(r); s.found ==> s.q + 1 < |r.cells|
  {
    hide Search, Deliverable;
    ScanSettles(r, flow);
    var s := Search(r);
    if s.found { DeliverableBounds(r, flow, s.p, s.q); }
  }

  lemma EmptyReads(r: MsgRing, len: nat)
    requires r.dataSize + r.maxPos < |r.cells| && r.dataSize == 0 && r.maxPos == 0
    ensures ReadMsg(r, len) == Reading(r, 0, None, [])
  {
  }

  /** From the ring after the skipping back to the ring before. */
  lemma ReadsWellMoves(r: MsgRing, flow: seq<DataPacket>, len: nat, r1: MsgRing, k: nat, rd1: Reading)
    requires k <= |flow| && k <= r.dataSize < |r.cells| == |r1.cells| && r1.dataSize == r.dataSize - k
    requires Moved(r.cells, k, r1.cells) && forall i :: 0 <= i < k ==> r.cells[i].Consumed?
    requires ReadsWell(r1, flow[k..], len, rd1)
    ensures ReadsWell(r, flow, len, Further(k, rd1))
  {
    hide InUse, Deliverable, Cut, Flatten, Moved, Taken;
    assert flow[k..][rd1.moved..] == flow[k + rd1.moved..];
    forall a, b | Deliverable(r.cells, r.dataSize, flow, a, b)
      ensures Deliverable(r1.cells, r1.dataSize, flow[k..], a - k, b - k)
    {
      BehindConsumed(r, flow, k, a, b);
      DeliverableMoves(r.cells, r.dataSize, flow, k, r1.cells, a - k, b - k);
    }
    if rd1.taken.Some? {
      var g := rd1.taken.value;
      TakenIsThere(r1.cells, r1.dataSize, flow[k..], g.lo, g.hi);
      PassedMoves(r.cells, k, r1.cells, rd1);
      DeliverableMoves(r.cells, r.dataSize, flow, k, r1.cells, g.lo, g.hi);
      TakenAfterMoved(r.cells, k, r1.cells, rd1.moved, g.lo, g.hi, rd1.ring.cells);
      assert flow[k..][g.lo..g.hi + 1] == flow[k + g.lo..k + g.hi + 1];
    } else {
      PassedMoves(r.cells, k, r1.cells, rd1);
      MovedOn(r.cells, k, r1.cells, rd1.moved, rd1.ring.cells);
    }
  }

  lemma TakenIsThere(cells: seq<Cell>, ds: nat, flow: seq<DataPacket>, a: int, b: int)
    requires Deliverable(cells, ds, flow, a, b)
    ensures 0 <= a <= b < |flow| && b < |cells| && forall i :: a <= i <= b ==> cells[i] != Empty
  {
  }

  lemma BehindConsumed(r: MsgRing, flow: seq<DataPacket>, k: nat, a: int, b: int)
    requires k < |r.cells| && forall i :: 0 <= i < k ==> r.cells[i].Consumed?
    requires Deliverable(r.cells, r.dataSize, flow, a, b)
    ensures a >= k
  {
    assert r.cells[a].Unread?;
  }

  lemma MovedOn(cells: seq<Cell>, k: nat, mid: seq<Cell>, m: nat, cells': seq<Cell>)
    requires Moved(cells, k, mid) && Moved(mid, m, cells')
    ensures Moved(cells, k + m, cells')
  {
    forall i | 0 <= i < |cells|
      ensures cells'[i] == if i + (k + m) < |cells| then cells[i + (k + m)] else Empty
    {
      var j := i + m;
      assert j < |cells| ==> mid[j] == if j + k < |cells| then cells[j + k] else Empty;
    }
  }

  /** What was passed over had been read. */
  lemma PassedMoves(cells: seq<Cell>, k: nat, mid: seq<Cell>, rd: Reading)
    requires Moved(cells, k, mid) && rd.moved <= |cells|
    requires k < |cells| && forall i :: 0 <= i < k ==> cells[i].Consumed?
    requires forall i :: 0 <= i < rd.moved ==>
        mid[i].Consumed? || (rd.taken.Some? && rd.taken.value.lo <= i <= rd.taken.value.hi && mid[i] != Empty)
    ensures k + rd.moved <= |cells|
    ensures var rd' := Further(k, rd);
            forall i :: 0 <= i < rd'.moved ==>
              cells[i].Consumed? || (rd'.taken.Some? && rd'.taken.value.lo <= i <= rd'.taken.value.hi)
  {
    if rd.moved > 0 {
      assert mid[rd.moved - 1] != Empty;
    }
    forall i | k <= i < k + rd.moved
      ensures mid[i - k] == cells[i]
    {
    }
    forall i | 0 <= i < k + rd.moved
      ensures cells[i].Consumed? || (rd.taken.Some? && k + rd.taken.value.lo <= i <= k + rd.taken.value.hi)
    {
      if i >= k { assert mid[i - k] == cells[i]; }
    }
  }

  // ----- a message that fills the ring -----

  lemma {:induction false} FindsNoEnd(cells: seq<Cell>, ds: nat, q: nat, n: nat)
    requires 0 < q <= n + 1 && |cells| - 2 <= n < |cells| && q < |cells| && cells[|cells| - 1] == Empty
    requires forall j :: q <= j < |cells| - 1 ==>
        cells[j].Unread? && !cells[j].packet.msg.last && !cells[j].packet.msg.first
    ensures Find(cells, ds, 0, q, n) == if n < |cells| - 1 then Scan(false, 0, n + 1) else Scan(false, -1, n + 1)
    decreases n + 1 - q
  {
    if q < |cells| - 1 {
      FindsNoEnd(cells, ds, q + 1, n);
    }
  }

  lemma {:induction false} NoEndLooksGood(cells: seq<Cell>, i: nat, end: nat)
    requires i <= end <= |cells| && forall j :: i <= j < end ==> cells[j].Unread? && !cells[j].packet.msg.last
    ensures LooksGood(cells, i, end)
    decreases end - i
  {
    if i < end {
      NoEndLooksGood(cells, i + 1, end);
    }
  }

  /** The ring is full, and all of it is the beginning of one message. */
  ghost predicate FilledByOne(r: MsgRing) {
    && |r.cells| > 2 && r.dataSize < |r.cells|
    && r.dataSize + r.maxPos == Max(|r.cells| - 2, r.dataSize)
    && r.cells[|r.cells| - 1] == Empty
    && forall j :: 0 <= j < |r.cells| - 1 ==>
        r.cells[j].Unread? && !r.cells[j].packet.msg.last && (r.cells[j].packet.msg.first <==> j == 0)
  }

  /**
   A message longer than the ring is found when it fills it, as long as not all of it is acknowledged. Nothing
   of it is ever returned: the copying loop ends before it begins, and the ring stays full.
   */
  lemma LongMessageIsStuck(r: MsgRing, len: nat)
    requires FilledByOne(r)
    ensures ScanMsg(r).1.found <==> r.dataSize < |r.cells| - 1
    ensures ReadMsg(r, len) == Reading(r, 0, None, [])
  {
    var n := r.dataSize + r.maxPos;
    NoEndLooksGood(r.cells, 0, r.dataSize);
    assert Skip(r) == r;
    FindsNoEnd(r.cells, r.dataSize, 1, n);
  }
}
