/**
 Messages and their fragments (src/udt/src/buffer.cpp, src/udt/src/packet.cpp): every packet carries the
 message number, the delivery-order flag and two bits that mark the first and the last fragment.
 */
module Messages {
  import opened Common

  /** The message number field of a packet. */
  datatype MsgField = MsgField(number: nat, inOrder: bool, first: bool, last: bool)

  datatype DataPacket = DataPacket(payload: Block, msg: MsgField)

  datatype Message = Message(data: seq<byte>, number: nat, inOrder: bool)

  const MAX_MSG_NO := 0x1FFF_FFFF

  /** The fields of the n packets of one message: the first and the last are marked. */
  function Fragments(n: nat, number: nat, inOrder: bool): (ms: seq<MsgField>)
    ensures |ms| == n
    ensures forall i :: 0 <= i < n ==> ms[i] == MsgField(number, inOrder, i == 0, i == n - 1)
  {
    seq(n, i => MsgField(number, inOrder, i == 0, i == n - 1))
  }

  /** Payloads with their fields. */
  function Zip(bs: seq<Block>, fs: seq<MsgField>): (ps: seq<DataPacket>)
    requires |bs| == |fs|
    ensures |ps| == |bs| && forall i :: 0 <= i < |ps| ==> ps[i] == DataPacket(bs[i], fs[i])
  {
    seq(|bs|, i requires 0 <= i < |bs| => DataPacket(bs[i], fs[i]))
  }

  function PayloadsOf(ps: seq<DataPacket>): (bs: seq<Block>)
    ensures |bs| == |ps| && forall i :: 0 <= i < |bs| ==> bs[i] == ps[i].payload
  {
    seq(|ps|, i requires 0 <= i < |ps| => ps[i].payload)
  }

  /** The packets that addBuffer makes of one message. */
  ghost function PacketsOf(m: Message, mss: nat): (ps: seq<DataPacket>)
    requires mss > 0
    ensures |ps| == |Chunks(m.data, mss)|
    ensures forall i :: 0 <= i < |ps| ==> ps[i].msg == MsgField(m.number, m.inOrder, i == 0, i == |ps| - 1)
  {
    var bs := Chunks(m.data, mss);
    Zip(bs, Fragments(|bs|, m.number, m.inOrder))
  }

  /** The packets of all messages, in sending order. */
  ghost function Stream(ms: seq<Message>, mss: nat): seq<DataPacket>
    requires mss > 0
  {
    if ms == [] then [] else Stream(ms[..|ms| - 1], mss) + PacketsOf(ms[|ms| - 1], mss)
  }

  /** Messages follow each other without gaps, and the fragments of one agree on the order flag. */
  ghost predicate Framed(sent: seq<DataPacket>) {
    && (sent != [] ==> sent[0].msg.first && sent[|sent| - 1].msg.last)
    && forall i, j :: 0 <= i < j < |sent| && j == i + 1 ==>
        && (sent[i].msg.last <==> sent[j].msg.first)
        && (!sent[j].msg.first ==> sent[i].msg.inOrder == sent[j].msg.inOrder)
  }

  /** The packets from lo to hi are one whole message. */
  ghost predicate IsMessage(sent: seq<DataPacket>, lo: int, hi: int) {
    && 0 <= lo <= hi < |sent|
    && sent[lo].msg.first && sent[hi].msg.last
    && (forall i :: lo < i <= hi ==> !sent[i].msg.first)
    && (forall i :: lo <= i < hi ==> !sent[i].msg.last)
  }

  lemma {:induction false} StreamFramed(ms: seq<Message>, mss: nat)
    requires mss > 0 && forall k :: 0 <= k < |ms| ==> ms[k].data != []
    ensures Framed(Stream(ms, mss))
    decreases |ms|
  {
    hide Chunks;
    if ms != [] {
      var k := |ms| - 1;
      StreamFramed(ms[..k], mss);
      MessageFramed(ms[k], mss);
      FramedConcat(Stream(ms[..k], mss), PacketsOf(ms[k], mss));
    }
  }

  lemma MessageFramed(m: Message, mss: nat)
    requires mss > 0 && m.data != []
    ensures Framed(PacketsOf(m, mss)) && PacketsOf(m, mss) != []
    ensures IsMessage(PacketsOf(m, mss), 0, |PacketsOf(m, mss)| - 1)
    ensures Flatten(PayloadsOf(PacketsOf(m, mss))) == m.data
  {
    hide Chunks;
    ChunksFlatten(m.data, mss);
    assert PayloadsOf(PacketsOf(m, mss)) == Chunks(m.data, mss);
    BytesNeedBlocks(Chunks(m.data, mss));
  }

  lemma BytesNeedBlocks(bs: seq<Block>)
    requires Flatten(bs) != []
    ensures bs != []
  {
  }

  lemma FramedConcat(a: seq<DataPacket>, b: seq<DataPacket>)
    requires Framed(a) && Framed(b)
    ensures Framed(a + b)
  {
    var s := a + b;
    forall i, j | 0 <= i < j < |s| && j == i + 1
      ensures s[i].msg.last <==> s[j].msg.first
      ensures !s[j].msg.first ==> s[i].msg.inOrder == s[j].msg.inOrder
    {
      if j < |a| {
        assert s[i] == a[i] && s[j] == a[j];
      } else if i >= |a| {
        assert s[i] == b[i - |a|] && s[j] == b[j - |a|];
      }
    }
  }

  /**
   Fragmentation round trip: any stretch of the stream that is framed as one message carries exactly the
   bytes and the order flag of one of the submitted messages, the k-th, at that message's place.
   */
  lemma {:induction false} MessageAt(ms: seq<Message>, mss: nat, lo: int, hi: int) returns (k: nat)
    requires mss > 0 && forall i :: 0 <= i < |ms| ==> ms[i].data != []
    requires IsMessage(Stream(ms, mss), lo, hi)
    ensures k < |ms| && lo == |Stream(ms[..k], mss)| && hi + 1 == |Stream(ms[..k + 1], mss)|
    ensures Flatten(PayloadsOf(Stream(ms, mss)[lo..hi + 1])) == ms[k].data
    ensures Stream(ms, mss)[hi].msg.inOrder == ms[k].inOrder
    decreases |ms|
  {
    hide Chunks, PacketsOf, Framed, Flatten, PayloadsOf, IsMessage;
    StreamNotEmpty(ms, mss, lo, hi);
    var last := |ms| - 1;
    var front, tail := Stream(ms[..last], mss), PacketsOf(ms[last], mss);
    MessageFramed(ms[last], mss);
    StreamFramed(ms[..last], mss);
    if lo >= |front| {
      k := last;
      WithinOne(front, tail, lo, hi);
      assert ms[..k + 1] == ms;
    } else {
      EndsBefore(front, tail, lo, hi);
      k := MessageAt(ms[..last], mss, lo, hi);
      Prefixes(ms, last, k);
    }
  }

  lemma StreamNotEmpty(ms: seq<Message>, mss: nat, lo: int, hi: int)
    requires mss > 0 && IsMessage(Stream(ms, mss), lo, hi)
    ensures ms != []
  {
  }

  lemma Prefixes<T>(s: seq<T>, n: nat, k: nat)
    requires k < n <= |s|
    ensures s[..n][..k] == s[..k] && s[..n][..k + 1] == s[..k + 1] && s[..n][k] == s[k]
  {
  }

  lemma WithinOne(front: seq<DataPacket>, tail: seq<DataPacket>, lo: int, hi: int)
    requires IsMessage(front + tail, lo, hi) && lo >= |front|
    requires tail != [] && IsMessage(tail, 0, |tail| - 1)
    ensures lo == |front| && hi == |front| + |tail| - 1
    ensures (front + tail)[lo..hi + 1] == tail && (front + tail)[hi] == tail[|tail| - 1]
  {
    var s := front + tail;
    assert s[lo] == tail[lo - |front|] && s[hi] == tail[hi - |front|];
  }

  lemma EndsBefore(front: seq<DataPacket>, tail: seq<DataPacket>, lo: int, hi: int)
    requires IsMessage(front + tail, lo, hi) && lo < |front| && Framed(front)
    requires tail != [] && IsMessage(tail, 0, |tail| - 1)
    ensures IsMessage(front, lo, hi)
    ensures 0 <= lo <= hi < |front| && (front + tail)[lo..hi + 1] == front[lo..hi + 1]
        && (front + tail)[hi] == front[hi]
  {
    var s := front + tail;
    assert s[|front|] == tail[0];
    forall i | lo <= i <= hi
      ensures s[i] == front[i]
    {
    }
  }
}
