/**
 The UDT sliding-window engine in stream mode (src/udt/src/core.cpp), one direction of a
 connection: the sending half of one endpoint, the receiving half of its peer, and the packets
 between them. Sequence numbers are unbounded here; the endpoint classes project them to 31 bits.
 */
module Protocol {
  import opened Common
  import opened StreamRing

  /** What the two ends agreed on: first sequence number, payload size and buffer sizes in packets. */
  datatype Config = Config(isn: int, mss: nat, sndBufSize: nat, rcvBufSize: nat, flightFlagSize: nat) {
    ghost predicate Valid() {
      mss >= 1 && rcvBufSize >= 32 && flightFlagSize >= 32
    }

    /** The window exchanged in the handshake. */
    function InitialWindow(): nat {
      Min(rcvBufSize, flightFlagSize)
    }

    /** No window larger than this is ever advertised. */
    function LargestWindow(): nat {
      Max(InitialWindow(), rcvBufSize - 1)
    }
  }

  /** buf holds the blocks from m_pFirstBlock to m_pLastBlock; currOff is the distance to m_pCurrBlock. */
  datatype Sender = Sender(
    lastAck: int, lastDataAck: int, curr: int, window: int,
    loss: set<int>, buf: seq<Block>, currOff: nat, broken: bool) {

    /** What every sender operation relies on. */
    ghost predicate Valid() {
      && lastDataAck <= lastAck <= curr + 1
      && currOff == curr + 1 - lastDataAck
      && currOff <= |buf|
      && (forall i :: 0 <= i < |buf| ==> buf[i] != [])
      && forall n :: n in loss ==> lastDataAck <= n <= curr
    }
  }

  datatype Receiver = Receiver(
    lastAck: int, lastAckAck: int, curr: int,
    loss: set<int>, ring: Ring, ackSeq: nat, ackWindow: map<nat, int>) {

    /** What every receiver operation relies on. */
    ghost predicate Valid() {
      && ring.Valid()
      && |ring.slots| >= 32
      && lastAckAck <= lastAck <= curr + 1
      && (forall n :: n in loss ==> lastAck <= n <= curr)
      && curr + 1 - lastAck + ring.dataSize < |ring.slots|
    }
  }

  datatype Packet =
    | Data(seqNo: int, payload: Block)
    | LiteAck(ack: int)
    | FullAck(ackNo: nat, ack: int, avail: int)
    | Ack2(ackNo: nat)
    | Nak(ranges: seq<Range>)

  // ----- sender -----

  function InitialSender(c: Config): Sender {
    Sender(c.isn, c.isn, c.isn - 1, c.InitialWindow(), {}, [], 0, false)
  }

  /** CUDT::send without the waiting: how many bytes are taken, and the new sender. */
  function Send(c: Config, s: Sender, data: seq<byte>): (Sender, nat)
    requires c.mss >= 1
  {
    if data == [] || c.sndBufSize <= |s.buf| then
      (s, 0)
    else
      var size := Min((c.sndBufSize - |s.buf|) * c.mss, |data|);
      assert size >= 0 by { assert (c.sndBufSize - |s.buf|) * c.mss >= 0; }
      (s.(buf := s.buf + Chunks(data[..size], c.mss)), size)
  }

  /** CUDT::packData: a retransmission first, else a new packet if the window is open. */
  ghost function PackData(s: Sender, cong: int): (Sender, Option<Packet>)
    requires s.Valid()
  {
    if s.loss != {} then
      var n := Least(s.loss);
      (s.(loss := s.loss - {n}), Some(Data(n, s.buf[n - s.lastDataAck])))
    else if Min(s.window, cong) >= s.curr + 1 - s.lastAck + 1 && s.currOff < |s.buf| then
      (s.(curr := s.curr + 1, currOff := s.currOff + 1), Some(Data(s.curr + 1, s.buf[s.currOff])))
    else
      (s, None)
  }

  function ProcessLiteAck(s: Sender, ack: int): Sender {
    if ack >= s.lastAck then
      s.(window := s.window - (ack - s.lastAck), lastAck := ack)
    else
      s
  }

  /** CSndLossList::remove: the numbers past n. */
  ghost function Above(loss: set<int>, n: int): set<int> {
    set x | x in loss && x > n
  }

  ghost function ProcessFullAck(s: Sender, ack: int, avail: int): Sender
    requires s.Valid()
  {
    if ack > s.curr + 1 then
      s.(broken := true)
    else
      var s1 := if ack >= s.lastAck then s.(window := avail, lastAck := ack) else s;
      if ack <= s.lastDataAck then
        s1
      else
        s1.(lastDataAck := ack, buf := s.buf[ack - s.lastDataAck..], currOff := s.currOff - (ack - s.lastDataAck),
            loss := Above(s.loss, ack - 1))
  }

  /** One entry of a loss report; false when its range check fails. */
  ghost function ProcessRange(s: Sender, r: Range): (Sender, bool) {
    if r.lo < r.hi then
      if r.hi > s.curr then (s, false)
      else if r.hi >= s.lastAck then (s.(loss := s.loss + Span(Max(r.lo, s.lastAck), r.hi)), true)
      else (s, true)
    else if r.lo == r.hi then
      if r.lo < s.lastAck then (s, true)
      else if r.lo > s.curr then (s, false)
      else (s.(loss := s.loss + {r.lo}), true)
    else
      (s, false)
  }

  ghost function ProcessNak(s: Sender, ranges: seq<Range>): Sender
    decreases |ranges|
  {
    if ranges == [] then s
    else
      var (s1, ok) := ProcessRange(s, ranges[0]);
      if ok then ProcessNak(s1, ranges[1..]) else s1.(broken := true)
  }

  /** The EXP branch of CUDT::checkTimers. */
  ghost function Expire(s: Sender): Sender {
    if |s.buf| > 0 && s.curr + 1 != s.lastAck && s.loss == {} then
      s.(loss := Span(s.lastAck, s.curr))
    else
      s
  }

  // ----- receiver -----

  function InitialReceiver(c: Config): Receiver {
    Receiver(c.isn, c.isn, c.isn - 1, {}, EmptyRing(c.rcvBufSize), 0, map[])
  }

  /** The number the next ACK carries: the first missing packet. */
  ghost function NextAck(r: Receiver): int {
    if r.loss == {} then r.curr + 1 else Least(r.loss)
  }

  lemma NextAckBounds(r: Receiver)
    requires r.Valid()
    ensures r.lastAck <= NextAck(r) <= r.curr + 1
    ensures forall n :: r.lastAck <= n < NextAck(r) ==> n <= r.curr && n !in r.loss
    ensures NextAck(r) - r.lastAck + r.ring.dataSize < |r.ring.slots|
    ensures NextAck(r) == r.curr + 1 || NextAck(r) in r.loss
  {
  }

  /** CUDT::processData, with the loss report it sends at once when it finds a gap. */
  ghost function ProcessData(r: Receiver, n: int, b: Block): (Receiver, Option<Packet>)
    requires r.Valid()
  {
    var offset := n - r.lastAck;
    if offset < 0 || offset >= r.ring.Avail() then
      (r, None)
    else
      var (ring1, ok) := AddData(r.ring, offset, b);
      if !ok then
        (r.(ring := ring1), None)
      else if n > r.curr + 1 then
        (r.(ring := ring1, loss := r.loss + Span(r.curr + 1, n - 1), curr := n), Some(Nak([Range(r.curr + 1, n - 1)])))
      else if n > r.curr then
        (r.(ring := ring1, curr := n), None)
      else
        (r.(ring := ring1, loss := r.loss - {n}), None)
  }

  /** sendCtrl(2): a full ACK; `repeat` says that the last one is old enough to be sent again. */
  ghost function SendFullAck(r: Receiver, repeat: bool): (Receiver, Option<Packet>)
    requires r.Valid()
  {
    var ack := NextAck(r);
    if ack == r.lastAckAck || ack < r.lastAck || (ack == r.lastAck && !repeat) then
      (r, None)
    else
      var r1 := if ack > r.lastAck then r.(lastAck := ack, ring := AckData(r.ring, ack - r.lastAck)) else r;
      if r1.lastAck > r1.lastAckAck then
        var k := r1.ackSeq + 1;
        (r1.(ackSeq := k, ackWindow := r1.ackWindow[k := r1.lastAck]),
         Some(FullAck(k, r1.lastAck, Max(r1.ring.Avail(), 2))))
      else
        (r1, None)
  }

  /** sendCtrl(2, 4 bytes): a lite ACK. */
  ghost function SendLiteAck(r: Receiver): Option<Packet> {
    if NextAck(r) == r.lastAckAck then None else Some(LiteAck(NextAck(r)))
  }

  function ProcessAck2(r: Receiver, k: nat): Receiver {
    if k in r.ackWindow && r.ackWindow[k] > r.lastAckAck then r.(lastAckAck := r.ackWindow[k]) else r
  }

  /** CUDT::recv without the waiting. */
  function Recv(r: Receiver, len: nat): (Receiver, seq<byte>)
    requires r.ring.Valid()
  {
    var (ring1, out) := ReadBuffer(r.ring, len);
    (r.(ring := ring1), out)
  }

  // ----- the connection -----

  /**
   net holds the packets in flight. Delivery leaves a packet there, so it may arrive again and in any
   order; Lose takes it away. The last three fields are history: the bytes send() accepted, the blocks
   they became, and the bytes recv() returned.
   */
  datatype World = World(
    snd: Sender, rcv: Receiver, net: set<Packet>,
    accepted: seq<byte>, blocks: seq<Block>, delivered: seq<byte>)

  datatype Event =
    | AppSend(data: seq<byte>)
    | AppRecv(len: nat)
    | Pack(cong: int)
    | Exp
    | AckTimer(repeat: bool)
    | LiteAckTimer
    | NakTimer(ranges: seq<Range>)
    | Deliver(packet: Packet, choice: bool)
    | Lose(packet: Packet)

  ghost function Initial(c: Config): World {
    World(InitialSender(c), InitialReceiver(c), {}, [], [], [])
  }

  ghost function Post(net: set<Packet>, p: Option<Packet>): set<Packet> {
    if p.Some? then net + {p.value} else net
  }

  /** A loss report covers only numbers that the receiver is missing. */
  ghost predicate Missing(r: Receiver, ranges: seq<Range>) {
    forall i :: 0 <= i < |ranges| ==> ranges[i].lo <= ranges[i].hi && Span(ranges[i].lo, ranges[i].hi) <= r.loss
  }

  ghost predicate WellFormed(c: Config, w: World) {
    c.Valid() && w.snd.Valid() && w.rcv.Valid()
  }

  /** One atomic step. An event that cannot happen leaves the world as it is. */
  ghost function Step(c: Config, w: World, e: Event): World
    requires WellFormed(c, w)
  {
    if w.snd.broken then w else
    match e
    case AppSend(data) =>
      var (s, size) := Send(c, w.snd, data);
      w.(snd := s, accepted := w.accepted + data[..Min(size, |data|)], blocks := w.blocks + s.buf[|w.snd.buf|..])
    case AppRecv(len) =>
      var (r, out) := Recv(w.rcv, len);
      w.(rcv := r, delivered := w.delivered + out)
    case Pack(cong) =>
      var (s, p) := PackData(w.snd, cong);
      w.(snd := s, net := Post(w.net, p))
    case Exp =>
      w.(snd := Expire(w.snd))
    case AckTimer(repeat) =>
      var (r, p) := SendFullAck(w.rcv, repeat);
      w.(rcv := r, net := Post(w.net, p))
    case LiteAckTimer =>
      w.(net := Post(w.net, SendLiteAck(w.rcv)))
    case NakTimer(ranges) =>
      if Missing(w.rcv, ranges) then w.(net := w.net + {Nak(ranges)}) else w
    case Lose(p) =>
      w.(net := w.net - {p})
    case Deliver(p, choice) =>
      if p !in w.net then w else DeliverPacket(w, p, choice)
  }

  /** `choice`: for a full ACK, whether an ACK2 answers it; for an ACK2, whether its entry is still stored. */
  ghost function DeliverPacket(w: World, p: Packet, choice: bool): World
    requires w.snd.Valid() && w.rcv.Valid()
  {
    match p
    case Data(n, b) =>
      var (r, q) := ProcessData(w.rcv, n, b);
      w.(rcv := r, net := Post(w.net, q))
    case LiteAck(a) => w.(snd := ProcessLiteAck(w.snd, a))
    case FullAck(k, a, avail) =>
      w.(snd := ProcessFullAck(w.snd, a, avail), net := if choice then w.net + {Ack2(k)} else w.net)
    case Ack2(k) => if choice then w.(rcv := ProcessAck2(w.rcv, k)) else w
    case Nak(ranges) => w.(snd := ProcessNak(w.snd, ranges))
  }
}
