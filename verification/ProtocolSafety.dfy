/** What every run of two honest endpoints over a lossy, duplicating, reordering network keeps. */
module ProtocolSafety {
  import opened Common
  import opened StreamRing
  import opened Protocol

  // ----- the invariant, one part of the connection at a time -----

  /** The blocks are the accepted bytes, cut into non-empty payloads. */
  ghost predicate HistoryInv(c: Config, accepted: seq<byte>, blocks: seq<Block>) {
    && accepted == Flatten(blocks)
    && forall i :: 0 <= i < |blocks| ==> 0 < |blocks[i]| <= c.mss
  }

  /** Retransmission identity: the sending buffer holds the blocks from m_iSndLastDataAck on. */
  ghost predicate SenderInv(c: Config, s: Sender, blocks: seq<Block>) {
    && s.Valid()
    && !s.broken
    && c.isn <= s.lastDataAck <= c.isn + |blocks|
    && s.buf == blocks[s.lastDataAck - c.isn..]
  }

  /** Span bound: the sender never runs further ahead than the largest window ever advertised. */
  ghost predicate WindowInv(c: Config, s: Sender) {
    && s.lastAck + s.window <= s.lastDataAck + c.LargestWindow()
    && s.curr + 1 <= s.lastDataAck + c.LargestWindow()
    && (s.lastAck == s.lastDataAck ==> s.window >= 2)
  }

  /** Slot i holds its packet exactly when that has arrived, and then the block first sent under its number. */
  ghost predicate SlotInv(c: Config, r: Receiver, blocks: seq<Block>, i: nat)
    requires i < |r.ring.slots|
  {
    var n := r.lastAck - r.ring.dataSize + i;
    if n <= r.curr && n !in r.loss then
      && 0 <= n - c.isn < |blocks|
      && r.ring.slots[i] == Some(blocks[n - c.isn])
    else
      r.ring.slots[i] == None
  }

  ghost predicate ReceiverInv(c: Config, r: Receiver, blocks: seq<Block>) {
    && r.Valid()
    && |r.ring.slots| == c.rcvBufSize
    && c.isn <= r.lastAck - r.ring.dataSize
    && forall i :: 0 <= i < |r.ring.slots| ==> SlotInv(c, r, blocks, i)
  }

  /** What recv() returned and what it can still return make up the acknowledged blocks. */
  ghost predicate DeliveredInv(c: Config, r: Receiver, blocks: seq<Block>, delivered: seq<byte>)
    requires r.ring.Valid()
  {
    && 0 <= r.lastAck - c.isn <= |blocks|
    && delivered + Unread(r.ring) == Flatten(blocks[..r.lastAck - c.isn])
  }

  /** What each end knows about the other: acknowledgements never run ahead of arrivals. */
  ghost predicate CrossInv(c: Config, s: Sender, r: Receiver) {
    && r.curr <= s.curr
    && s.lastDataAck <= r.lastAck
    && s.lastAck <= NextAck(r)
    && r.lastAckAck <= s.lastDataAck
    && (forall k :: k in r.ackWindow ==> c.isn <= r.ackWindow[k] <= r.lastAck && k <= r.ackSeq)
  }

  /** Every packet in flight is true of the two ends. */
  ghost predicate PacketInv(c: Config, s: Sender, r: Receiver, blocks: seq<Block>, p: Packet) {
    match p
    case Data(n, b) => c.isn <= n <= s.curr && n - c.isn < |blocks| && b == blocks[n - c.isn]
    case LiteAck(a) => c.isn <= a <= NextAck(r)
    case FullAck(k, a, avail) => k in r.ackWindow && r.ackWindow[k] == a && 2 <= avail <= c.LargestWindow()
    case Ack2(k) => k in r.ackWindow && r.ackWindow[k] <= s.lastDataAck
    case Nak(ranges) => forall i :: 0 <= i < |ranges| ==> ranges[i].lo <= ranges[i].hi <= r.curr
  }

  ghost predicate NetInv(c: Config, s: Sender, r: Receiver, blocks: seq<Block>, net: set<Packet>) {
    forall p :: p in net ==> PacketInv(c, s, r, blocks, p)
  }

  ghost predicate Inv(c: Config, w: World) {
    && c.Valid()
    && HistoryInv(c, w.accepted, w.blocks)
    && SenderInv(c, w.snd, w.blocks)
    && WindowInv(c, w.snd)
    && ReceiverInv(c, w.rcv, w.blocks)
    && DeliveredInv(c, w.rcv, w.blocks, w.delivered)
    && CrossInv(c, w.snd, w.rcv)
    && NetInv(c, w.snd, w.rcv, w.blocks, w.net)
  }

  // ----- small facts -----

  lemma InvWellFormed(c: Config, w: World)
    requires Inv(c, w)
    ensures WellFormed(c, w) && !w.snd.broken
  {
  }

  /** The slots after k of them have been read: the rest has moved up. */
  ghost predicate Shifted(slots: seq<Option<Block>>, k: nat, slots': seq<Option<Block>>) {
    && |slots'| == |slots|
    && forall i :: 0 <= i < |slots| ==> slots'[i] == if i + k < |slots| then slots[i + k] else None
  }

  lemma {:induction false} ReadShifts(r: Ring, len: nat)
    requires r.Valid()
    ensures ReadBuffer(r, len).0.dataSize <= r.dataSize
    ensures Shifted(r.slots, r.dataSize - ReadBuffer(r, len).0.dataSize, ReadBuffer(r, len).0.slots)
    decreases r.dataSize
  {
    hide ReadBuffer;
    if r.dataSize == 0 || len == 0 {
      ReadNothing(r, len);
    } else {
      ReadStep(r, len);
      var left := |r.slots[0].value| - r.notch;
      if left <= len {
        var r1 := DropFirst(r);
        ReadShifts(r1, len - left);
        ShiftedTwice(r.slots, r1.slots, r1.dataSize - ReadBuffer(r1, len - left).0.dataSize,
            ReadBuffer(r1, len - left).0.slots);
      }
    }
  }

  lemma ShiftedTwice(a: seq<Option<Block>>, b: seq<Option<Block>>, k: nat, d: seq<Option<Block>>)
    requires Shifted(a, 1, b) && Shifted(b, k, d)
    ensures Shifted(a, k + 1, d)
  {
    forall i | 0 <= i < |a|
      ensures d[i] == if i + k + 1 < |a| then a[i + k + 1] else None
    {
    }
  }

  /** Everything a packet in flight can refer to only moves forward, so what was true of it stays true. */
  ghost predicate Grows(s: Sender, r: Receiver, blocks: seq<Block>, s': Sender, r': Receiver, blocks': seq<Block>) {
    && s.curr <= s'.curr
    && s.lastDataAck <= s'.lastDataAck
    && blocks <= blocks'
    && r.curr <= r'.curr
    && NextAck(r) <= NextAck(r')
    && (forall k :: k in r.ackWindow ==> k in r'.ackWindow && r'.ackWindow[k] == r.ackWindow[k])
  }

  lemma NetGrows(c: Config, w: World, w': World)
    requires NetInv(c, w.snd, w.rcv, w.blocks, w.net)
    requires Grows(w.snd, w.rcv, w.blocks, w'.snd, w'.rcv, w'.blocks)
    requires forall p :: p in w'.net ==> p in w.net || PacketInv(c, w'.snd, w'.rcv, w'.blocks, p)
    ensures NetInv(c, w'.snd, w'.rcv, w'.blocks, w'.net)
  {
  }

  // ----- send -----

  lemma MoreBlocks(c: Config, r: Receiver, blocks: seq<Block>, delivered: seq<byte>, more: seq<Block>)
    requires ReceiverInv(c, r, blocks) && DeliveredInv(c, r, blocks, delivered)
    ensures ReceiverInv(c, r, blocks + more) && DeliveredInv(c, r, blocks + more, delivered)
  {
    assert (blocks + more)[..r.lastAck - c.isn] == blocks[..r.lastAck - c.isn];
    forall i | 0 <= i < |r.ring.slots|
      ensures SlotInv(c, r, blocks + more, i)
    {
      assert SlotInv(c, r, blocks, i);
    }
  }

  lemma SendAppends(c: Config, s: Sender, data: seq<byte>)
    requires c.Valid()
    ensures var (s', size) := Send(c, s, data);
            && size <= |data|
            && s' == s.(buf := s.buf + Chunks(data[..size], c.mss))
  {
    if data != [] && c.sndBufSize > |s.buf| {
      assert (c.sndBufSize - |s.buf|) * c.mss >= 0;
    } else {
      assert s.buf + Chunks(data[..0], c.mss) == s.buf;
    }
  }

  lemma MoreBuffer(c: Config, s: Sender, blocks: seq<Block>, data: seq<byte>)
    requires c.Valid() && SenderInv(c, s, blocks)
    ensures SenderInv(c, s.(buf := s.buf + Chunks(data, c.mss)), blocks + Chunks(data, c.mss))
  {
    var chunks := Chunks(data, c.mss);
    ChunksFlatten(data, c.mss);
    var d := s.lastDataAck - c.isn;
    assert (blocks + chunks)[d..] == blocks[d..] + chunks;
    forall i | 0 <= i < |s.buf + chunks|
      ensures (s.buf + chunks)[i] != []
    {
    }
  }

  lemma MoreHistory(c: Config, accepted: seq<byte>, blocks: seq<Block>, data: seq<byte>)
    requires c.Valid() && HistoryInv(c, accepted, blocks)
    ensures HistoryInv(c, accepted + data, blocks + Chunks(data, c.mss))
  {
    ChunksFlatten(data, c.mss);
    FlattenConcat(blocks, Chunks(data, c.mss));
  }

  lemma AppSendKeeps(c: Config, w: World, data: seq<byte>)
    requires Inv(c, w)
    ensures Inv(c, Step(c, w, AppSend(data)))
  {
    var w' := Step(c, w, AppSend(data));
    SendAppends(c, w.snd, data);
    var taken := data[..Send(c, w.snd, data).1];
    assert w'.snd.buf[|w.snd.buf|..] == Chunks(taken, c.mss);
    MoreHistory(c, w.accepted, w.blocks, taken);
    MoreBuffer(c, w.snd, w.blocks, taken);
    MoreBlocks(c, w.rcv, w.blocks, w.delivered, Chunks(taken, c.mss));
    NetGrows(c, w, w');
  }

  // ----- recv -----

  lemma ShiftKeepsSlots(c: Config, r: Receiver, ring': Ring, blocks: seq<Block>)
    requires ReceiverInv(c, r, blocks)
    requires ring'.Valid() && ring'.dataSize <= r.ring.dataSize
    requires Shifted(r.ring.slots, r.ring.dataSize - ring'.dataSize, ring'.slots)
    ensures ReceiverInv(c, r.(ring := ring'), blocks)
  {
    var r' := r.(ring := ring');
    var k := r.ring.dataSize - ring'.dataSize;
    forall i | 0 <= i < |ring'.slots|
      ensures SlotInv(c, r', blocks, i)
    {
      assert ring'.slots[i] == if i + k < |r.ring.slots| then r.ring.slots[i + k] else None;
      if i + k < |r.ring.slots| {
        assert SlotInv(c, r, blocks, i + k);
      }
    }
  }

  lemma RecvKeepsReceiver(c: Config, r: Receiver, blocks: seq<Block>, len: nat)
    requires ReceiverInv(c, r, blocks)
    ensures ReceiverInv(c, Recv(r, len).0, blocks)
  {
    ReadShifts(r.ring, len);
    ShiftKeepsSlots(c, r, ReadBuffer(r.ring, len).0, blocks);
  }

  lemma RecvDelivers(c: Config, r: Receiver, blocks: seq<Block>, delivered: seq<byte>, len: nat)
    requires r.ring.Valid() && DeliveredInv(c, r, blocks, delivered)
    ensures DeliveredInv(c, Recv(r, len).0, blocks, delivered + Recv(r, len).1)
  {
    ReadTakesPrefix(r.ring, len);
    var (ring', out) := ReadBuffer(r.ring, len);
    assert (delivered + out) + Unread(ring') == delivered + (out + Unread(ring'));
  }

  lemma AppRecvKeeps(c: Config, w: World, len: nat)
    requires Inv(c, w)
    ensures Inv(c, Step(c, w, AppRecv(len)))
  {
    RecvKeepsReceiver(c, w.rcv, w.blocks, len);
    RecvDelivers(c, w.rcv, w.blocks, w.delivered, len);
    var w' := w.(rcv := Recv(w.rcv, len).0, delivered := w.delivered + Recv(w.rcv, len).1);
    assert NextAck(w'.rcv) == NextAck(w.rcv);
    NetGrows(c, w, w');
    assert Step(c, w, AppRecv(len)) == w';
  }

  // ----- the sender's own steps -----

  /** A sender that only moved forward changes nothing for the rest of the connection. */
  lemma SenderMoved(c: Config, w: World, s: Sender, net: set<Packet>)
    requires Inv(c, w)
    requires SenderInv(c, s, w.blocks) && WindowInv(c, s) && CrossInv(c, s, w.rcv)
    requires Grows(w.snd, w.rcv, w.blocks, s, w.rcv, w.blocks)
    requires forall p :: p in net ==> p in w.net || PacketInv(c, s, w.rcv, w.blocks, p)
    ensures Inv(c, w.(snd := s, net := net))
  {
    hide HistoryInv, SenderInv, WindowInv, ReceiverInv, DeliveredInv, CrossInv, Grows, NetInv, PacketInv;
    NetGrows(c, w, w.(snd := s, net := net));
  }

  lemma PackKeepsSender(c: Config, s: Sender, blocks: seq<Block>, cong: int)
    requires SenderInv(c, s, blocks) && WindowInv(c, s)
    ensures var (s', p) := PackData(s, cong);
            && SenderInv(c, s', blocks) && WindowInv(c, s') && s.curr <= s'.curr
            && s'.lastAck == s.lastAck && s'.lastDataAck == s.lastDataAck
            && (p.Some? ==> p.value.Data? && c.isn <= p.value.seqNo <= s'.curr && p.value.seqNo - c.isn < |blocks|)
            && (p.Some? ==> p.value.payload == blocks[p.value.seqNo - c.isn])
  {
    var p := PackData(s, cong).1;
    if p.Some? {
      assert p.value.payload == s.buf[p.value.seqNo - s.lastDataAck];
    }
  }

  lemma PackKeeps(c: Config, w: World, cong: int)
    requires Inv(c, w)
    ensures Inv(c, Step(c, w, Pack(cong)))
  {
    hide HistoryInv, ReceiverInv, DeliveredInv, NetInv, SenderInv, WindowInv, PackData;
    InvWellFormed(c, w);
    PackKeepsSender(c, w.snd, w.blocks, cong);
    var (s, p) := PackData(w.snd, cong);
    SenderMoved(c, w, s, Post(w.net, p));
  }

  lemma ExpKeeps(c: Config, w: World)
    requires Inv(c, w)
    ensures Inv(c, Step(c, w, Exp))
  {
    hide HistoryInv, ReceiverInv, DeliveredInv, NetInv;
    SenderMoved(c, w, Expire(w.snd), w.net);
  }

  // ----- acknowledgements and loss reports at the sender -----

  /** An acknowledgement in flight was sent by the receiver, for packets that had been sent to it. */
  lemma AckInFlight(c: Config, w: World, p: Packet)
    requires Inv(c, w) && p in w.net && (p.LiteAck? || p.FullAck?)
    ensures c.isn <= p.ack <= NextAck(w.rcv) && p.ack <= w.snd.curr + 1
    ensures p.FullAck? ==> p.ack <= w.rcv.lastAck && 2 <= p.avail <= c.LargestWindow()
    ensures p.FullAck? ==> p.ackNo in w.rcv.ackWindow && w.rcv.ackWindow[p.ackNo] == p.ack
  {
    hide HistoryInv, DeliveredInv, SenderInv, WindowInv;
    assert PacketInv(c, w.snd, w.rcv, w.blocks, p);
    NextAckBounds(w.rcv);
  }

  lemma LiteAckKeepsSender(c: Config, s: Sender, blocks: seq<Block>, a: int)
    requires SenderInv(c, s, blocks) && WindowInv(c, s) && a <= s.curr + 1
    ensures var s' := ProcessLiteAck(s, a);
            && SenderInv(c, s', blocks) && WindowInv(c, s')
            && s'.lastAck == Max(s.lastAck, a) && s'.lastDataAck == s.lastDataAck && s'.curr == s.curr
  {
  }

  lemma LiteAckKeeps(c: Config, w: World, a: int, choice: bool)
    requires Inv(c, w) && LiteAck(a) in w.net
    ensures Inv(c, Step(c, w, Deliver(LiteAck(a), choice)))
  {
    hide HistoryInv, SenderInv, WindowInv, ReceiverInv, DeliveredInv, NetInv, PacketInv, ProcessLiteAck, NextAck;
    InvWellFormed(c, w);
    AckInFlight(c, w, LiteAck(a));
    LiteAckKeepsSender(c, w.snd, w.blocks, a);
    SenderMoved(c, w, ProcessLiteAck(w.snd, a), w.net);
  }

  lemma FullAckKeepsSender(c: Config, s: Sender, blocks: seq<Block>, a: int, avail: int)
    requires SenderInv(c, s, blocks) && WindowInv(c, s)
    requires a <= s.curr + 1 && 2 <= avail <= c.LargestWindow()
    ensures var s' := ProcessFullAck(s, a, avail);
            && SenderInv(c, s', blocks) && WindowInv(c, s')
            && s'.lastAck == Max(s.lastAck, a) && s'.lastDataAck == Max(s.lastDataAck, a) && s'.curr == s.curr
  {
    var s' := ProcessFullAck(s, a, avail);
    if a > s.lastDataAck {
      assert s'.buf == s.buf[a - s.lastDataAck..];
      assert blocks[s.lastDataAck - c.isn..][a - s.lastDataAck..] == blocks[a - c.isn..];
    }
  }

  lemma FullAckKeeps(c: Config, w: World, k: nat, a: int, avail: int, choice: bool)
    requires Inv(c, w) && FullAck(k, a, avail) in w.net
    ensures Inv(c, Step(c, w, Deliver(FullAck(k, a, avail), choice)))
  {
    hide HistoryInv, SenderInv, WindowInv, ReceiverInv, DeliveredInv, NetInv, ProcessFullAck, NextAck;
    InvWellFormed(c, w);
    AckInFlight(c, w, FullAck(k, a, avail));
    FullAckKeepsSender(c, w.snd, w.blocks, a, avail);
    SenderMoved(c, w, ProcessFullAck(w.snd, a, avail), if choice then w.net + {Ack2(k)} else w.net);
  }

  /** A report of numbers the receiver has seen passed is never refused, and only adds sent numbers. */
  lemma {:induction false} NakKeepsSender(c: Config, s: Sender, blocks: seq<Block>, ranges: seq<Range>)
    requires SenderInv(c, s, blocks)
    requires forall i :: 0 <= i < |ranges| ==> ranges[i].lo <= ranges[i].hi <= s.curr
    ensures SenderInv(c, ProcessNak(s, ranges), blocks)
    ensures exists loss :: ProcessNak(s, ranges) == s.(loss := loss)
    decreases |ranges|
  {
    if ranges == [] {
      assert s == s.(loss := s.loss);
    } else {
      var (s1, ok) := ProcessRange(s, ranges[0]);
      assert s1 == s.(loss := s1.loss);
      NakKeepsSender(c, s1, blocks, ranges[1..]);
    }
  }

  lemma NakKeeps(c: Config, w: World, ranges: seq<Range>, choice: bool)
    requires Inv(c, w) && Nak(ranges) in w.net
    ensures Inv(c, Step(c, w, Deliver(Nak(ranges), choice)))
  {
    assert PacketInv(c, w.snd, w.rcv, w.blocks, Nak(ranges));
    NakKeepsSender(c, w.snd, w.blocks, ranges);
    NetGrows(c, w, Step(c, w, Deliver(Nak(ranges), choice)));
  }

  // ----- the receiver's steps -----

  /** The slots do not depend on what was acknowledged to whom. */
  lemma BookkeepingKeeps(c: Config, r: Receiver, blocks: seq<Block>, r': Receiver)
    requires ReceiverInv(c, r, blocks)
    requires r' == r.(lastAckAck := r'.lastAckAck, ackSeq := r'.ackSeq, ackWindow := r'.ackWindow)
    requires r'.lastAckAck <= r.lastAck
    ensures ReceiverInv(c, r', blocks)
  {
    forall i | 0 <= i < |r.ring.slots|
      ensures SlotInv(c, r', blocks, i)
    {
      assert SlotInv(c, r, blocks, i);
    }
  }

  lemma Ack2Keeps(c: Config, w: World, k: nat, choice: bool)
    requires Inv(c, w) && Ack2(k) in w.net
    ensures Inv(c, Step(c, w, Deliver(Ack2(k), choice)))
  {
    assert PacketInv(c, w.snd, w.rcv, w.blocks, Ack2(k));
    var w' := Step(c, w, Deliver(Ack2(k), choice));
    BookkeepingKeeps(c, w.rcv, w.blocks, w'.rcv);
    NetGrows(c, w, w');
  }

  /** The receiver once packet n has been counted: the gap before it is recorded, or it fills a recorded gap. */
  function Detected(r: Receiver, n: int): Receiver {
    r.(loss := if n > r.curr then r.loss + Span(r.curr + 1, n - 1) else r.loss - {n}, curr := Max(r.curr, n))
  }

  /** The same once packet n has been stored as well. */
  function Arrived(r: Receiver, n: int, slots: seq<Option<Block>>, maxPos: nat): Receiver {
    Detected(r.(ring := r.ring.(slots := slots, maxPos := maxPos)), n)
  }

  /** The report that packet n causes. */
  function GapReport(r: Receiver, n: int): Option<Packet> {
    if n > r.curr + 1 then Some(Nak([Range(r.curr + 1, n - 1)])) else None
  }

  lemma NoSpan(n: int)
    ensures Span(n, n - 1) == {}
  {
  }

  lemma ProcessDataCases(r: Receiver, n: int, b: Block)
    requires r.Valid()
    ensures var (r', p) := ProcessData(r, n, b);
            if n < r.lastAck || n - r.lastAck >= r.ring.Avail() then r' == r && p == None
            else
              var (ring1, ok) := AddData(r.ring, n - r.lastAck, b);
              if !ok then r' == r.(ring := ring1) && p == None
              else r' == Detected(r.(ring := ring1), n) && p == GapReport(r, n)
    ensures forall ring1 :: GapReport(r.(ring := ring1), n) == GapReport(r, n)
  {
    hide Receiver.Valid, Ring.Valid, Span, AddData;
    if n == r.curr + 1 {
      NoSpan(n);
      assert r.loss + Span(r.curr + 1, n - 1) == r.loss;
    }
  }

  lemma ArrivedKeeps(c: Config, r: Receiver, blocks: seq<Block>, n: int, maxPos: nat)
    requires ReceiverInv(c, r, blocks)
    requires 0 <= n - c.isn < |blocks|
    requires 0 <= n - r.lastAck < r.ring.Avail()
    requires r.ring.slots[r.ring.dataSize + n - r.lastAck] == None
    ensures var at := r.ring.dataSize + n - r.lastAck;
            ReceiverInv(c, Arrived(r, n, r.ring.slots[at := Some(blocks[n - c.isn])], maxPos), blocks)
  {
    hide SlotInv;
    var at := r.ring.dataSize + n - r.lastAck;
    var r' := Arrived(r, n, r.ring.slots[at := Some(blocks[n - c.isn])], maxPos);
    assert SlotInv(c, r, blocks, at);
    ArrivedIsNew(c, r, blocks, n);
    forall i | 0 <= i < |r.ring.slots|
      ensures SlotInv(c, r', blocks, i)
    {
      assert SlotInv(c, r, blocks, i);
      ArrivedKeepsSlot(c, r, blocks, n, maxPos, i);
    }
  }

  /** An empty slot belongs to a number that is missing or was never seen. */
  lemma ArrivedIsNew(c: Config, r: Receiver, blocks: seq<Block>, n: int)
    requires 0 <= n - r.lastAck && r.ring.dataSize + n - r.lastAck < |r.ring.slots|
    requires SlotInv(c, r, blocks, r.ring.dataSize + n - r.lastAck)
    requires r.ring.slots[r.ring.dataSize + n - r.lastAck] == None
    ensures n in r.loss || n > r.curr
  {
  }

  lemma ArrivedKeepsSlot(c: Config, r: Receiver, blocks: seq<Block>, n: int, maxPos: nat, i: nat)
    requires r.Valid() && 0 <= n - c.isn < |blocks|
    requires 0 <= n - r.lastAck < r.ring.Avail() && (n in r.loss || n > r.curr)
    requires i < |r.ring.slots| && SlotInv(c, r, blocks, i)
    ensures var at := r.ring.dataSize + n - r.lastAck;
            SlotInv(c, Arrived(r, n, r.ring.slots[at := Some(blocks[n - c.isn])], maxPos), blocks, i)
  {
  }

  lemma ArrivedNextAck(r: Receiver, n: int, slots: seq<Option<Block>>, maxPos: nat)
    requires r.Valid() && r.lastAck <= n
    ensures NextAck(r) <= NextAck(Arrived(r, n, slots, maxPos))
  {
  }

  lemma SameUnread(r: Ring, r': Ring)
    requires r.Valid() && r'.Valid()
    requires r'.dataSize == r.dataSize && r'.notch == r.notch && r'.slots[..r.dataSize] == r.slots[..r.dataSize]
    ensures Unread(r') == Unread(r)
  {
    if r.dataSize > 0 {
      assert r'.slots[0] == r'.slots[..r.dataSize][0] == r.slots[0];
      assert r'.slots[1..r.dataSize] == r'.slots[..r.dataSize][1..] == r.slots[1..r.dataSize];
    }
  }

  lemma MaxPosIsFree(c: Config, r: Receiver, blocks: seq<Block>, maxPos: nat)
    requires ReceiverInv(c, r, blocks)
    ensures ReceiverInv(c, r.(ring := r.ring.(maxPos := maxPos)), blocks)
  {
    var r' := r.(ring := r.ring.(maxPos := maxPos));
    forall i | 0 <= i < |r.ring.slots|
      ensures SlotInv(c, r', blocks, i)
    {
      assert SlotInv(c, r, blocks, i);
    }
  }

  lemma DataKeepsReceiver(c: Config, r: Receiver, blocks: seq<Block>, n: int)
    requires ReceiverInv(c, r, blocks)
    requires 0 <= n - c.isn < |blocks|
    ensures var r' := ProcessData(r, n, blocks[n - c.isn]).0;
            && ReceiverInv(c, r', blocks)
            && NextAck(r) <= NextAck(r')
            && Unread(r'.ring) == Unread(r.ring)
  {
    hide ProcessData, NextAck, SlotInv, Unread, Span;
    var b := blocks[n - c.isn];
    ProcessDataCases(r, n, b);
    if 0 <= n - r.lastAck < r.ring.Avail() {
      var at := r.ring.dataSize + n - r.lastAck;
      var maxPos := Max(r.ring.maxPos, n - r.lastAck);
      if r.ring.slots[at].Some? {
        MaxPosIsFree(c, r, blocks, maxPos);
        SameAck(r, r.ring.(maxPos := maxPos));
        SameUnread(r.ring, r.ring.(maxPos := maxPos));
      } else {
        StoredKeeps(c, r, blocks, n, r.ring.slots[at := Some(b)], maxPos);
      }
    }
  }

  lemma StoredKeeps(c: Config, r: Receiver, blocks: seq<Block>, n: int, slots: seq<Option<Block>>, maxPos: nat)
    requires ReceiverInv(c, r, blocks) && 0 <= n - c.isn < |blocks| && 0 <= n - r.lastAck < r.ring.Avail()
    requires r.ring.slots[r.ring.dataSize + n - r.lastAck] == None
    requires slots == r.ring.slots[r.ring.dataSize + n - r.lastAck := Some(blocks[n - c.isn])]
    ensures var r' := Arrived(r, n, slots, maxPos);
            ReceiverInv(c, r', blocks) && NextAck(r) <= NextAck(r') && Unread(r'.ring) == Unread(r.ring)
  {
    hide NextAck, SlotInv, Unread, Span;
    var r' := Arrived(r, n, slots, maxPos);
    ArrivedKeeps(c, r, blocks, n, maxPos);
    ArrivedNextAck(r, n, slots, maxPos);
    assert r'.ring.slots[..r.ring.dataSize] == r.ring.slots[..r.ring.dataSize];
    SameUnread(r.ring, r'.ring);
  }

  lemma SameAck(r: Receiver, ring: Ring)
    ensures NextAck(r.(ring := ring)) == NextAck(r)
  {
  }

  lemma ReportOfData(r: Receiver, n: int, b: Block)
    requires r.Valid()
    ensures var (r', q) := ProcessData(r, n, b);
            && r'.lastAck == r.lastAck && r'.lastAckAck == r.lastAckAck
            && r'.ackWindow == r.ackWindow && r'.ackSeq == r.ackSeq
            && r.curr <= r'.curr <= Max(r.curr, n)
            && (q.Some? ==> q.value == Nak([Range(r.curr + 1, n - 1)]) && r.curr + 1 <= n - 1 && r'.curr == n)
  {
    hide Span, AddData, Ring.Valid, Receiver.Valid;
  }

  /** The rest of the connection does not notice a receiver that only moved forward. */
  lemma ReceiverMoved(c: Config, w: World, r: Receiver, q: Option<Packet>)
    requires Inv(c, w)
    requires ReceiverInv(c, r, w.blocks)
    requires DeliveredInv(c, r, w.blocks, w.delivered) && CrossInv(c, w.snd, r)
    requires Grows(w.snd, w.rcv, w.blocks, w.snd, r, w.blocks)
    requires q.Some? ==> PacketInv(c, w.snd, r, w.blocks, q.value)
    ensures Inv(c, w.(rcv := r, net := Post(w.net, q)))
  {
    NetGrows(c, w, w.(rcv := r, net := Post(w.net, q)));
  }

  lemma DataKeepsRest(c: Config, s: Sender, r: Receiver, blocks: seq<Block>, delivered: seq<byte>, n: int, b: Block)
    requires r.Valid() && CrossInv(c, s, r) && DeliveredInv(c, r, blocks, delivered)
    requires c.isn <= n <= s.curr
    requires var r' := ProcessData(r, n, b).0;
             r'.ring.Valid() && NextAck(r) <= NextAck(r') && Unread(r'.ring) == Unread(r.ring)
    ensures var (r', q) := ProcessData(r, n, b);
            && CrossInv(c, s, r') && DeliveredInv(c, r', blocks, delivered)
            && Grows(s, r, blocks, s, r', blocks)
            && (q.Some? ==> PacketInv(c, s, r', blocks, q.value))
  {
    ReportOfData(r, n, b);
  }

  lemma DeliverData(c: Config, w: World, n: int, b: Block, choice: bool)
    requires WellFormed(c, w) && !w.snd.broken && Data(n, b) in w.net
    ensures Step(c, w, Deliver(Data(n, b), choice))
         == w.(rcv := ProcessData(w.rcv, n, b).0, net := Post(w.net, ProcessData(w.rcv, n, b).1))
  {
  }

  lemma DataKeepsParts(c: Config, s: Sender, r: Receiver, blocks: seq<Block>, delivered: seq<byte>, n: int, b: Block)
    requires ReceiverInv(c, r, blocks) && CrossInv(c, s, r) && DeliveredInv(c, r, blocks, delivered)
    requires c.isn <= n <= s.curr && n - c.isn < |blocks| && b == blocks[n - c.isn]
    ensures var (r', q) := ProcessData(r, n, b);
            && ReceiverInv(c, r', blocks) && CrossInv(c, s, r') && DeliveredInv(c, r', blocks, delivered)
            && Grows(s, r, blocks, s, r', blocks)
            && (q.Some? ==> PacketInv(c, s, r', blocks, q.value))
  {
    DataKeepsReceiver(c, r, blocks, n);
    DataKeepsRest(c, s, r, blocks, delivered, n, b);
  }

  lemma DataKeeps(c: Config, w: World, n: int, b: Block, choice: bool)
    requires Inv(c, w) && Data(n, b) in w.net
    ensures Inv(c, Step(c, w, Deliver(Data(n, b), choice)))
  {
    assert PacketInv(c, w.snd, w.rcv, w.blocks, Data(n, b));
    DataKeepsParts(c, w.snd, w.rcv, w.blocks, w.delivered, n, b);
    DeliverData(c, w, n, b, choice);
    var rq := ProcessData(w.rcv, n, b);
    ReceiverMoved(c, w, rq.0, rq.1);
  }

  /** Acknowledging filled slots hands their payloads over to the unread stream. */
  lemma AckExtendsUnread(r: Ring, len: nat)
    requires r.Valid() && r.dataSize + len < |r.slots|
    requires forall i :: r.dataSize <= i < r.dataSize + len ==> r.slots[i].Some?
    ensures AckData(r, len).Valid()
    ensures Unread(AckData(r, len)) == Unread(r) + Flatten(Units(r.slots[r.dataSize..r.dataSize + len]))
  {
    if len == 0 {
      assert Units(r.slots[r.dataSize..r.dataSize]) == [];
    } else if r.dataSize > 0 {
      AckExtendsSome(r, len);
    } else {
      AckExtendsNone(r, len);
    }
  }

  lemma AckExtendsSome(r: Ring, len: nat)
    requires r.Valid() && 0 < r.dataSize && r.dataSize + len < |r.slots|
    requires forall i :: r.dataSize <= i < r.dataSize + len ==> r.slots[i].Some?
    ensures Unread(AckData(r, len)) == Unread(r) + Flatten(Units(r.slots[r.dataSize..r.dataSize + len]))
  {
    hide Units, Flatten;
    UnitsSplit(r.slots, 1, r.dataSize, r.dataSize + len);
    ConcatAssoc(r.slots[0].value[r.notch..], Flatten(Units(r.slots[1..r.dataSize])),
                Flatten(Units(r.slots[r.dataSize..r.dataSize + len])));
  }

  lemma AckExtendsNone(r: Ring, len: nat)
    requires r.Valid() && r.dataSize == 0 < len < |r.slots|
    requires forall i :: 0 <= i < len ==> r.slots[i].Some?
    ensures Unread(AckData(r, len)) == Flatten(Units(r.slots[0..len]))
  {
    var us := Units(r.slots[0..len]);
    FlattenHead(us);
    assert Units(r.slots[1..len]) == us[1..];
    assert r.slots[0].value[0..] == us[0];
  }

  lemma UnitsSplit(slots: seq<Option<Block>>, i: nat, j: nat, k: nat)
    requires i <= j <= k <= |slots|
    requires forall x :: i <= x < k ==> slots[x].Some?
    ensures Flatten(Units(slots[i..k])) == Flatten(Units(slots[i..j])) + Flatten(Units(slots[j..k]))
  {
    assert Units(slots[i..k]) == Units(slots[i..j]) + Units(slots[j..k]);
    FlattenConcat(Units(slots[i..j]), Units(slots[j..k]));
  }

  function Acked(r: Receiver, a: int): Receiver
    requires r.lastAck <= a && r.ring.dataSize + a - r.lastAck < |r.ring.slots|
  {
    r.(lastAck := a, ring := AckData(r.ring, a - r.lastAck))
  }

  lemma AckedRun(c: Config, r: Receiver, blocks: seq<Block>, a: int)
    requires ReceiverInv(c, r, blocks) && c.isn <= r.lastAck <= a <= NextAck(r) && a - c.isn <= |blocks|
    ensures var ds, len := r.ring.dataSize, a - r.lastAck;
            && ds + len < |r.ring.slots|
            && (forall i :: ds <= i < ds + len ==> r.ring.slots[i].Some?)
            && Units(r.ring.slots[ds..ds + len]) == blocks[r.lastAck - c.isn..a - c.isn]
  {
    NextAckBounds(r);
    var ds, len := r.ring.dataSize, a - r.lastAck;
    forall i | ds <= i < ds + len
      ensures r.ring.slots[i] == Some(blocks[r.lastAck - c.isn + (i - ds)])
    {
      assert SlotInv(c, r, blocks, i);
    }
    var us, bs := Units(r.ring.slots[ds..ds + len]), blocks[r.lastAck - c.isn..a - c.isn];
    forall j | 0 <= j < len
      ensures us[j] == bs[j]
    {
      assert r.ring.slots[ds..ds + len][j] == r.ring.slots[ds + j];
    }
  }

  lemma AckKeepsReceiver(c: Config, r: Receiver, blocks: seq<Block>, a: int)
    requires ReceiverInv(c, r, blocks)
    requires c.isn <= r.lastAck && a == NextAck(r) && a - c.isn <= |blocks|
    ensures r.lastAck <= a && r.ring.dataSize + a - r.lastAck < |r.ring.slots|
    ensures ReceiverInv(c, Acked(r, a), blocks) && NextAck(Acked(r, a)) == NextAck(r)
  {
    hide SlotInv;
    NextAckBounds(r);
    AckedRun(c, r, blocks, a);
    AckExtendsUnread(r.ring, a - r.lastAck);
    forall i | 0 <= i < |r.ring.slots|
      ensures SlotInv(c, Acked(r, a), blocks, i)
    {
      AckKeepsSlot(c, r, blocks, a, i);
    }
  }

  lemma AckKeepsSlot(c: Config, r: Receiver, blocks: seq<Block>, a: int, i: nat)
    requires i < |r.ring.slots| && r.lastAck <= a && r.ring.dataSize + a - r.lastAck < |r.ring.slots|
    requires SlotInv(c, r, blocks, i)
    ensures SlotInv(c, Acked(r, a), blocks, i)
  {
  }

  lemma AckedUnread(c: Config, r: Receiver, blocks: seq<Block>, a: int)
    requires ReceiverInv(c, r, blocks)
    requires c.isn <= r.lastAck <= a <= NextAck(r) && a - c.isn <= |blocks|
    ensures r.ring.dataSize + a - r.lastAck < |r.ring.slots|
    ensures Acked(r, a).ring.Valid()
    ensures Unread(Acked(r, a).ring) == Unread(r.ring) + Flatten(blocks[r.lastAck - c.isn..a - c.isn])
  {
    AckedRun(c, r, blocks, a);
    AckExtendsUnread(r.ring, a - r.lastAck);
  }

  lemma AckKeepsDelivered(c: Config, r: Receiver, blocks: seq<Block>, delivered: seq<byte>, a: int)
    requires ReceiverInv(c, r, blocks) && DeliveredInv(c, r, blocks, delivered)
    requires r.lastAck <= a <= NextAck(r) && a - c.isn <= |blocks|
    ensures r.ring.dataSize + a - r.lastAck < |r.ring.slots|
    ensures Acked(r, a).ring.Valid() && DeliveredInv(c, Acked(r, a), blocks, delivered)
  {
    AckedUnread(c, r, blocks, a);
    var lo, hi := r.lastAck - c.isn, a - c.isn;
    PrefixExtends(blocks, lo, hi);
    assert delivered + (Unread(r.ring) + Flatten(blocks[lo..hi])) ==
        (delivered + Unread(r.ring)) + Flatten(blocks[lo..hi]);
  }

  lemma PrefixExtends(blocks: seq<Block>, lo: nat, hi: nat)
    requires lo <= hi <= |blocks|
    ensures Flatten(blocks[..hi]) == Flatten(blocks[..lo]) + Flatten(blocks[lo..hi])
  {
    assert blocks[..hi] == blocks[..lo] + blocks[lo..hi];
    FlattenConcat(blocks[..lo], blocks[lo..hi]);
  }

  lemma SendFullAckCases(r: Receiver, repeat: bool)
    requires r.Valid()
    ensures var a, (r', p) := NextAck(r), SendFullAck(r, repeat);
            && r.lastAck <= a && r.ring.dataSize + a - r.lastAck < |r.ring.slots|
            && (r' == r || r' == Acked(r, a).(ackSeq := r'.ackSeq, ackWindow := r'.ackWindow))
            && r.ackSeq <= r'.ackSeq
            && (p == None ==> r'.ackWindow == r.ackWindow)
            && (p.Some? ==> r'.ackSeq == r.ackSeq + 1 && r'.ackWindow == r.ackWindow[r'.ackSeq := a] && r'.lastAck == a
                            && p.value == FullAck(r'.ackSeq, a, Max(r'.ring.Avail(), 2)))
  {
    NextAckBounds(r);
    assert Acked(r, r.lastAck) == r;
  }

  lemma AckTimerKeepsReceiver(c: Config, r: Receiver, blocks: seq<Block>, delivered: seq<byte>, repeat: bool)
    requires ReceiverInv(c, r, blocks) && DeliveredInv(c, r, blocks, delivered)
    requires NextAck(r) - c.isn <= |blocks|
    ensures var r' := SendFullAck(r, repeat).0;
            ReceiverInv(c, r', blocks) && DeliveredInv(c, r', blocks, delivered) && NextAck(r') == NextAck(r)
  {
    var a, r' := NextAck(r), SendFullAck(r, repeat).0;
    SendFullAckCases(r, repeat);
    if r' != r {
      AckKeepsReceiver(c, r, blocks, a);
      AckKeepsDelivered(c, r, blocks, delivered, a);
      BookkeepingKeeps(c, Acked(r, a), blocks, r');
      assert NextAck(r') == NextAck(Acked(r, a));
    }
  }

  lemma AckTimerKeepsRest(c: Config, s: Sender, r: Receiver, blocks: seq<Block>, repeat: bool)
    requires c.Valid() && r.Valid() && |r.ring.slots| == c.rcvBufSize && CrossInv(c, s, r)
    requires NextAck(SendFullAck(r, repeat).0) == NextAck(r)
    requires c.isn <= r.lastAck
    ensures var (r', p) := SendFullAck(r, repeat);
            && CrossInv(c, s, r') && Grows(s, r, blocks, s, r', blocks)
            && (p.Some? ==> PacketInv(c, s, r', blocks, p.value))
  {
    SendFullAckCases(r, repeat);
  }

  lemma AckTimerKeeps(c: Config, w: World, repeat: bool)
    requires Inv(c, w)
    ensures Inv(c, Step(c, w, AckTimer(repeat)))
  {
    NextAckBounds(w.rcv);
    AckTimerKeepsReceiver(c, w.rcv, w.blocks, w.delivered, repeat);
    AckTimerKeepsRest(c, w.snd, w.rcv, w.blocks, repeat);
    ReceiverMoved(c, w, SendFullAck(w.rcv, repeat).0, SendFullAck(w.rcv, repeat).1);
  }

  lemma ReportKeeps(c: Config, w: World, e: Event)
    requires Inv(c, w) && (e.LiteAckTimer? || e.NakTimer? || e.Lose?)
    ensures Inv(c, Step(c, w, e))
  {
    NextAckBounds(w.rcv);
    var w' := Step(c, w, e);
    if e.NakTimer? && Missing(w.rcv, e.ranges) {
      forall i | 0 <= i < |e.ranges|
        ensures e.ranges[i].lo <= e.ranges[i].hi <= w.rcv.curr
      {
        assert e.ranges[i].hi in Span(e.ranges[i].lo, e.ranges[i].hi);
      }
    }
    NetGrows(c, w, w');
  }

  // ----- every step, every run -----

  lemma StepKeeps(c: Config, w: World, e: Event)
    requires Inv(c, w)
    ensures Inv(c, Step(c, w, e))
  {
    match e
    case AppSend(data) => AppSendKeeps(c, w, data);
    case AppRecv(len) => AppRecvKeeps(c, w, len);
    case Pack(cong) => PackKeeps(c, w, cong);
    case Exp => ExpKeeps(c, w);
    case AckTimer(repeat) => AckTimerKeeps(c, w, repeat);
    case LiteAckTimer => ReportKeeps(c, w, e);
    case NakTimer(_) => ReportKeeps(c, w, e);
    case Lose(_) => ReportKeeps(c, w, e);
    case Deliver(p, choice) =>
      if p in w.net {
        match p
        case Data(n, b) => DataKeeps(c, w, n, b, choice);
        case LiteAck(a) => LiteAckKeeps(c, w, a, choice);
        case FullAck(k, a, avail) => FullAckKeeps(c, w, k, a, avail, choice);
        case Ack2(k) => Ack2Keeps(c, w, k, choice);
        case Nak(ranges) => NakKeeps(c, w, ranges, choice);
      }
  }
}
