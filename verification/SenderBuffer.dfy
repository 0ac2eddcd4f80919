/**
 CSndBuffer (src/udt/src/buffer.cpp): a growable ring of blocks on the heap with three cursors, the first
 unacknowledged block, the first unsent block and the first free block.
 */
module SenderBuffer {
  import opened Common
  import opened Messages

  class SndBlock {
    var data: Block
    var msg: MsgField
    var next: SndBlock?

    constructor ()
      ensures next == null
    {
      data := [];
      msg := MsgField(0, false, false, false);
      next := null;
    }
  }

  ghost predicate Distinct(ring: seq<SndBlock>) {
    forall i, j :: 0 <= i < j < |ring| ==> ring[i] != ring[j]
  }

  /** The place after i, going round. */
  function After(i: nat, n: nat): nat
    requires i < n
  {
    if i + 1 < n then i + 1 else 0
  }

  /** The next links lead once around the ring. */
  ghost predicate Cycle(ring: seq<SndBlock>)
    reads ring
  {
    forall i {:trigger ring[i].next} :: 0 <= i < |ring| ==> ring[i].next == ring[After(i, |ring|)]
  }

  /** The first blocks hold these payloads and fields. */
  ghost predicate Holds(ring: seq<SndBlock>, data: seq<Block>, fields: seq<MsgField>)
    reads ring
  {
    && |data| == |fields| <= |ring|
    && forall i :: 0 <= i < |data| ==> ring[i].data == data[i] && ring[i].msg == fields[i]
  }

  class SndBuffer {
    const mss: nat
    const unitSize: nat
    var firstBlock: SndBlock
    var currBlock: SndBlock
    var lastBlock: SndBlock
    var size: nat
    var count: nat
    var nextMsgNo: nat

    /** All blocks of the ring, from firstBlock on. */
    ghost var ring: seq<SndBlock>
    /** How many blocks lie between firstBlock and currBlock. */
    ghost var sent: nat
    /** The payloads that wait for acknowledgement, oldest first, and their message fields. */
    ghost var waiting: seq<Block>
    ghost var fields: seq<MsgField>

    ghost predicate Valid()
      reads this, ring
    {
      && mss > 0 && unitSize > 0
      && size == |ring| && count < size
      && Distinct(ring)
      && Cycle(ring)
      && firstBlock == ring[0]
      && lastBlock == ring[count]
      && sent <= count
      && currBlock == ring[sent]
      && 1 <= nextMsgNo < MAX_MSG_NO
      && Holds(ring, waiting, fields) && |waiting| == |fields| == count
    }

    constructor (size: nat, mss: nat)
      requires size > 0 && mss > 0
      ensures Valid() && fresh(ring) && this.mss == mss
      ensures count == 0 && sent == 0 && waiting == [] && fields == []
    {
      this.mss := mss;
      unitSize := size;
      var head, tail;
      ghost var nb;
      head, tail, nb := NewBlocks(size);
      tail.next := head;
      firstBlock, currBlock, lastBlock := head, head, head;
      this.size, count, nextMsgNo := size, 0, 1;
      ring, sent, waiting, fields := nb, 0, [], [];
    }

    /** readData, first form: the next unsent payload, or none. */
    method ReadData() returns (r: Option<Block>)
      requires Valid()
      modifies this`currBlock, this`sent
      ensures Valid() && count == old(count)
      ensures if old(sent) < count then r == Some(waiting[old(sent)]) && sent == old(sent) + 1
              else r == None && sent == old(sent)
    {
      if currBlock == lastBlock {
        return None;
      }
      r := Some(currBlock.data);
      assert ring[sent].next == ring[sent + 1];
      currBlock := currBlock.next;
      sent := sent + 1;
    }

    /** readData, second form: the payload `offset` blocks past the first, for a retransmission (no TTL). */
    method ReadDataAt(offset: nat) returns (b: Block)
      requires Valid() && offset < count
      ensures b == waiting[offset]
    {
      var p := firstBlock;
      var i := 0;
      while i < offset
        invariant 0 <= i <= offset && p == ring[i]
      {
        assert ring[i].next == ring[i + 1];
        p := p.next;
        i := i + 1;
      }
      b := p.data;
    }

    /** ackData: the first `offset` blocks become free again. */
    method AckData(offset: nat)
      requires Valid() && offset <= sent
      modifies this`firstBlock, this`count, this`ring, this`sent, this`waiting, this`fields
      ensures Valid() && sent == old(sent) - offset && count == old(count) - offset
      ensures waiting == old(waiting)[offset..] && fields == old(fields)[offset..]
      ensures forall b :: b in ring <==> b in old(ring)
    {
      hide Distinct, Cycle, Holds;
      WalkFirst(offset);
      count := count - offset;
      sent := sent - offset;
      ring := Forgotten(offset);
      waiting := waiting[offset..];
      fields := fields[offset..];
    }

    /** The ring read from the block at offset on. */
    lemma Forgotten(offset: nat) returns (r: seq<SndBlock>)
      requires Distinct(ring) && Cycle(ring) && Holds(ring, waiting, fields)
      requires count >= 0 && sent >= 0 && offset + Max(count, sent) < |ring| && offset <= |waiting| == |fields|
      ensures |r| == |ring| && Distinct(r) && Cycle(r) && Holds(r, waiting[offset..], fields[offset..])
      ensures r[0] == ring[offset] && r[count] == ring[offset + count] && r[sent] == ring[offset + sent]
      ensures forall b :: b in r <==> b in ring
    {
      hide Distinct, Cycle, Holds;
      r := ring[offset..] + ring[..offset];
      Rotated(ring, offset);
      RotatedHolds(ring, waiting, fields, offset);
    }

    method WalkFirst(offset: nat)
      requires Valid() && offset <= sent
      modifies this`firstBlock
      ensures firstBlock == ring[offset]
    {
      var i := 0;
      while i < offset
        invariant 0 <= i <= offset && firstBlock == ring[i]
      {
        assert ring[i].next == ring[i + 1];
        firstBlock := firstBlock.next;
        i := i + 1;
      }
    }

    /** A chain of n fresh blocks, from head to tail. */
    static method NewBlocks(n: nat) returns (head: SndBlock, tail: SndBlock, ghost nb: seq<SndBlock>)
      requires n > 0
      ensures |nb| == n && Distinct(nb) && head == nb[0] && tail == nb[n - 1]
      ensures fresh(nb)
      ensures forall j {:trigger nb[j].next} :: 0 <= j < n - 1 ==> nb[j].next == nb[j + 1]
    {
      head := new SndBlock();
      tail := head;
      nb := [head];
      for i := 1 to n
        invariant |nb| == i && nb[0] == head && tail == nb[i - 1]
        invariant Distinct(nb) && fresh(nb)
        invariant forall j {:trigger nb[j].next} :: 0 <= j < i - 1 ==> nb[j].next == nb[j + 1]
      {
        var b := new SndBlock();
        tail.next := b;
        tail := b;
        nb := nb + [b];
      }
    }

    /** increase: a further unit of free blocks is linked in behind lastBlock. */
    method Increase()
      requires Valid()
      modifies this`size, this`ring, lastBlock`next
      ensures Valid() && size == old(size) + unitSize
      ensures |ring| >= old(|ring|) && ring[..count + 1] == old(ring)[..count + 1]
      ensures forall i :: 0 <= i < |ring| ==> ring[i] in old(ring) || fresh(ring[i])
      ensures lastBlock == old(lastBlock)
    {
      hide Distinct, Cycle;
      var nblk, pb;
      ghost var nb;
      nblk, pb, nb := NewBlocks(unitSize);
      SpliceIn(nblk, pb, nb);
      size := size + unitSize;
    }

    /** The new blocks are linked in behind lastBlock. */
    method SpliceIn(nblk: SndBlock, pb: SndBlock, ghost nb: seq<SndBlock>)
      requires count < |ring| && lastBlock == ring[count] && Distinct(ring) && Cycle(ring)
      requires nb != [] && nblk == nb[0] && pb == nb[|nb| - 1] && Distinct(nb)
      requires forall j {:trigger nb[j].next} :: 0 <= j < |nb| - 1 ==> nb[j].next == nb[j + 1]
      requires forall b :: b in nb ==> b !in ring
      modifies this`ring, lastBlock`next, pb`next
      ensures Distinct(ring) && Cycle(ring) && |ring| == old(|ring|) + |nb|
      ensures ring[..count + 1] == old(ring)[..count + 1]
      ensures forall b :: b in ring ==> b in old(ring) || b in nb
    {
      hide Spliced;
      LastIsOnce(ring, count);
      LastIsOnce(nb, |nb| - 1);
      hide Distinct;
      ghost var all := Spliced(ring, count, nb);
      SplicedRing(ring, count, nb);
      assert ring[count].next == ring[After(count, |ring|)];
      assert pb in nb && lastBlock in ring;
      pb.next := lastBlock.next;
      lastBlock.next := nblk;
      forall j {:trigger all[j].next} | 0 <= j < |all|
        ensures all[j].next == all[After(j, |all|)]
      {
        if j < count {
          assert ring[j] in ring && old(ring[j].next) == ring[j + 1];
        } else if count < j < count + |nb| {
          assert nb[j - count - 1] in nb && old(nb[j - count - 1].next) == nb[j - count];
        } else if j > count + |nb| {
          assert ring[j - |nb|] in ring && old(ring[j - |nb|].next) == ring[After(j - |nb|, |ring|)];
        }
      }
      ring := all;
    }

    /**
     addBuffer: the data goes into the free blocks behind lastBlock, cut into payloads; the ring grows
     first when it could not keep one block free. What was waiting or sent is not touched.
     */
    method AddBuffer(data: seq<byte>, inOrder: bool)
      requires Valid()
      modifies this, ring
      ensures Valid() && sent == old(sent) && count == |waiting|
      ensures waiting == old(waiting) + Chunks(data, mss)
      ensures fields == old(fields) + Fragments(PacketCount(|data|, mss), old(nextMsgNo), inOrder)
      ensures nextMsgNo == if old(nextMsgNo) + 1 == MAX_MSG_NO then 1 else old(nextMsgNo) + 1
      ensures forall i :: 0 <= i < |ring| ==> ring[i] in old(ring) || fresh(ring[i])
    {
      hide Chunks, Distinct, Cycle, Holds, Fragments;
      var n := |data| / mss;
      if |data| % mss != 0 {
        n := n + 1;
      }
      ChunksCount(data, mss);
      MakeRoom(n);
      AddBlocks(data, n, inOrder);
    }

    /** The blocks are filled and counted, and the message number is used up. */
    method AddBlocks(data: seq<byte>, n: nat, inOrder: bool)
      requires Valid() && n == |Chunks(data, mss)| && n + count < size
      modifies this`lastBlock, this`waiting, this`fields, this`count, this`nextMsgNo, ring`data, ring`msg
      ensures Valid() && count == |waiting|
      ensures waiting == old(waiting) + Chunks(data, mss)
          && fields == old(fields) + Fragments(n, old(nextMsgNo), inOrder)
      ensures nextMsgNo == if old(nextMsgNo) + 1 == MAX_MSG_NO then 1 else old(nextMsgNo) + 1
    {
      hide Chunks, Distinct, Cycle, Holds, Fragments;
      FillBlocks(data, n, inOrder);
      count := count + n;
      nextMsgNo := nextMsgNo + 1;
      if nextMsgNo == MAX_MSG_NO {
        nextMsgNo := 1;
      }
    }

    method MakeRoom(n: nat)
      requires Valid()
      modifies this`size, this`ring, lastBlock`next
      ensures Valid() && n + count < size
      ensures |ring| >= old(|ring|) && ring[..count + 1] == old(ring)[..count + 1]
      ensures forall i :: 0 <= i < |ring| ==> ring[i] in old(ring) || fresh(ring[i])
    {
      hide Distinct, Cycle, Holds;
      while n + count >= size
        invariant Valid() && |ring| >= old(|ring|) && ring[..count + 1] == old(ring)[..count + 1]
        invariant forall i :: 0 <= i < |ring| ==> ring[i] in old(ring) || fresh(ring[i])
        decreases n + count - size
      {
        Increase();
      }
    }

    /** The copying loop of addBuffer. */
    method FillBlocks(data: seq<byte>, n: nat, inOrder: bool)
      requires Valid() && n == |Chunks(data, mss)| && n + count < size
      modifies this`lastBlock, this`waiting, this`fields, ring`data, ring`msg
      ensures Distinct(ring) && Cycle(ring) && lastBlock == ring[count + n]
      ensures waiting == old(waiting) + Chunks(data, mss) && fields == old(fields) + Fragments(n, nextMsgNo, inOrder)
      ensures Holds(ring, waiting, fields)
    {
      hide Chunks, Holds, Distinct, Cycle;
      var s := lastBlock;
      var i := 0;
      ghost var chunks, tags := Chunks(data, mss), Fragments(n, nextMsgNo, inOrder);
      while i < n
        invariant 0 <= i <= n && s == ring[count + i] && lastBlock == old(lastBlock) && Cycle(ring)
        invariant waiting == old(waiting) + chunks[..i]
        invariant fields == old(fields) + tags[..i]
        invariant Holds(ring, waiting, fields)
      {
        var piece := Piece(data, i);
        OneMore(old(waiting), chunks, i);
        OneMore(old(fields), tags, i);
        s := FillOne(s, piece, MsgField(nextMsgNo, inOrder, i == 0, i == n - 1));
        i := i + 1;
      }
      assert chunks[..n] == chunks && tags[..n] == tags;
      lastBlock := s;
    }

    /** The bytes copied into the i-th block. */
    method Piece(data: seq<byte>, i: nat) returns (piece: Block)
      requires mss > 0 && i < |Chunks(data, mss)|
      ensures piece == Chunks(data, mss)[i]
    {
      ChunkAt(data, mss, i);
      var pktlen := |data| - i * mss;
      if pktlen > mss {
        pktlen := mss;
      }
      piece := data[i * mss..i * mss + pktlen];
    }

    method FillOne(s: SndBlock, data: Block, msg: MsgField) returns (s': SndBlock)
      requires |waiting| + 1 < |ring| && s == ring[|waiting|] && Distinct(ring) && Cycle(ring)
          && Holds(ring, waiting, fields)
      modifies s`data, s`msg, this`waiting, this`fields
      ensures waiting == old(waiting) + [data] && fields == old(fields) + [msg]
      ensures s' == ring[|waiting|]
      ensures Holds(ring, waiting, fields) && Cycle(ring)
    {
      s.data := data;
      s.msg := msg;
      waiting := waiting + [data];
      fields := fields + [msg];
      assert ring[|waiting| - 1].next == ring[|waiting|];
      s' := s.next;
    }
  }

  /** The ring with a chain linked in behind place k. */
  ghost function Spliced(ring: seq<SndBlock>, k: nat, nb: seq<SndBlock>): seq<SndBlock>
    requires k < |ring|
  {
    ring[..k + 1] + nb + ring[k + 1..]
  }

  lemma LastIsOnce(ring: seq<SndBlock>, k: nat)
    requires Distinct(ring) && k < |ring|
    ensures forall i :: 0 <= i < |ring| && i != k ==> ring[i] != ring[k]
  {
  }

  lemma SplicedRing(ring: seq<SndBlock>, k: nat, nb: seq<SndBlock>)
    requires k < |ring| && Distinct(ring) && Distinct(nb)
    requires forall b :: b in nb ==> b !in ring
    ensures var all := Spliced(ring, k, nb);
            && |all| == |ring| + |nb| && Distinct(all) && all[..k + 1] == ring[..k + 1]
            && (forall i :: 0 <= i <= k ==> all[i] == ring[i])
            && (forall i :: k < i <= k + |nb| ==> all[i] == nb[i - k - 1])
            && (forall i :: k + |nb| < i < |all| ==> all[i] == ring[i - |nb|])
            && (forall b :: b in all <==> b in ring || b in nb)
  {
    assert ring == ring[..k + 1] + ring[k + 1..];
    forall i, j | 0 <= i < |ring| && 0 <= j < |nb|
      ensures ring[i] != nb[j]
    {
      assert nb[j] in nb;
    }
  }

  lemma OneMore<T>(a: seq<T>, b: seq<T>, i: nat)
    requires i < |b|
    ensures (a + b[..i]) + [b[i]] == a + b[..i + 1]
  {
  }

  lemma RotatedHolds(ring: seq<SndBlock>, data: seq<Block>, fields: seq<MsgField>, k: nat)
    requires Holds(ring, data, fields) && k <= |data|
    ensures Holds(ring[k..] + ring[..k], data[k..], fields[k..])
  {
  }

  /** A ring read from another block on is the same ring. */
  lemma Rotated(ring: seq<SndBlock>, k: nat)
    requires k < |ring| && Distinct(ring) && Cycle(ring)
    ensures var r := ring[k..] + ring[..k];
            && |r| == |ring| && r[0] == ring[k] && Distinct(r) && Cycle(r)
            && (forall i :: 0 <= i < |ring| - k ==> r[i] == ring[i + k])
            && (forall b :: b in r <==> b in ring)
  {
    var r := ring[k..] + ring[..k];
    forall i {:trigger r[i].next} | 0 <= i < |r|
      ensures r[i].next == r[After(i, |r|)]
    {
      var x := if i < |ring| - k then i + k else i + k - |ring|;
      assert r[i] == ring[x];
      assert ring[x].next == ring[After(x, |ring|)];
    }
    assert ring == ring[..k] + ring[k..];
  }
}
