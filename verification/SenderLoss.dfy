/**
 CSndLossList (src/udt/src/list.cpp): the sender's loss list, an interval list threaded through arrays,
 where the slot of a node is fixed by the distance of its first number from the head. The abstract
 content is the set Lost() of unbounded sequence numbers.
 */
module SenderLoss {
  import opened Common
  import opened SeqNo
  import opened LossNodes

  class SndLossList {
    const size: int
    const data1: array<int>
    const data2: array<int>
    const next: array<int>
    var head: int
    var length: int
    var lastInsertPos: int

    ghost var nodes: seq<Node>

    ghost predicate Arrays() {
      && 0 < size < SEQ_NO_TH
      && data1.Length == size && data2.Length == size && next.Length == size
      && data1 != data2 && data1 != next && data2 != next
    }

    /** The representation; node k may still run into its successors (k == -1: none does). */
    ghost predicate Rep(k: int)
      reads this, data1, data2, next
    {
      && Arrays()
      && Chain(nodes, k)
      && Fits(nodes, size)
      && Stored(nodes, size, data1[..], data2[..], next[..])
      && length == Count(nodes)
      && (nodes != [] ==> head == nodes[0].pos)
      && (lastInsertPos == -1 || Occupied(nodes, lastInsertPos))
    }

    ghost predicate Valid()
      reads this, data1, data2, next
    {
      Rep(-1)
    }

    /** The set of lost numbers. */
    ghost function Lost(): set<int>
      reads this
    {
      Elems(nodes)
    }

    constructor (size: int)
      requires 0 < size < SEQ_NO_TH
      ensures Valid() && Lost() == {} && this.size == size
      ensures fresh(data1) && fresh(data2) && fresh(next)
    {
      this.size := size;
      data1 := new int[size](_ => -1);
      data2 := new int[size](_ => -1);
      next := new int[size];
      head, length, lastInsertPos := -1, 0, -1;
      nodes := [];
    }

    // ----- reading the list -----

    /** The arrays at node k. */
    lemma At(m: int, k: nat)
      requires Rep(m) && k < |nodes|
      ensures 0 <= nodes[k].pos < size && Occupied(nodes, nodes[k].pos)
      ensures data1[nodes[k].pos] == Wrap(nodes[k].lo)
      ensures data2[nodes[k].pos] == EndMark(nodes[k].lo, nodes[k].hi)
      ensures next[nodes[k].pos] == if k + 1 < |nodes| then nodes[k + 1].pos else -1
      ensures nodes[k].lo <= nodes[k].hi && 0 <= nodes[k].lo - nodes[0].lo && nodes[k].hi - nodes[0].lo < size
      ensures 0 <= m < |nodes| && k == m + 1 ==> nodes[m].lo < nodes[k].lo
    {
      ReadNode(nodes, size, data1[..], data2[..], next[..], k);
    }

    /** The slot computed from the distance to the head belongs to the node that starts there, if any. */
    lemma SlotOf(lo: int) returns (k: int)
      requires Valid() && nodes != [] && 0 <= lo - nodes[0].lo < size
      ensures var loc := Move(nodes[0].pos, lo - nodes[0].lo, size);
              && 0 <= loc < size
              && (data1[loc] == Wrap(lo) ==> 0 <= k < |nodes| && nodes[k].lo == lo && nodes[k].pos == loc)
              && (data1[loc] != Wrap(lo) ==>
                    !Occupied(nodes, loc) && (forall i :: 0 <= i < |nodes| ==> nodes[i].lo != lo) && nodes[0].lo < lo)
    {
      var loc := Move(nodes[0].pos, lo - nodes[0].lo, size);
      if Occupied(nodes, loc) {
        k :| 0 <= k < |nodes| && nodes[k].pos == loc;
        SlotsAgree(nodes, size, k, lo);
      } else {
        k := -1;
        assert nodes[0].pos == Move(nodes[0].pos, 0, size);
        NodeOccupies(nodes, 0);
      }
    }

    /** Comparing with the first number of a node compares the unbounded numbers. */
    lemma NodeCompares(k: nat, lo: int)
      requires Valid() && k < |nodes| && nodes[0].lo <= lo && Near(lo, nodes[k].lo)
      ensures 0 <= nodes[k].pos < size && data1[nodes[k].pos] == Wrap(nodes[k].lo)
      ensures SeqCmp(data1[nodes[k].pos], Wrap(lo)) < 0 <==> nodes[k].lo < lo
      ensures SeqCmp(data1[nodes[k].pos], Wrap(lo)) == 0 <==> nodes[k].lo == lo
    {
      At(-1, k);
      CmpExact(nodes[k].lo, lo);
    }

    /** What the search loop's test sees behind node k. */
    lemma NextCompares(k: nat, lo: int)
      requires Valid() && k < |nodes| && Ahead(lo)
      ensures 0 <= nodes[k].pos < size
      ensures var n := next[nodes[k].pos];
              && (n == -1 <==> k + 1 == |nodes|)
              && (n != -1 ==>
                    && 0 <= n < size && n == nodes[k + 1].pos
                    && (SeqCmp(data1[n], Wrap(lo)) < 0 <==> nodes[k + 1].lo < lo))
    {
      At(-1, k);
      if k + 1 < |nodes| {
        NodeCompares(k + 1, lo);
      }
    }

    /** Not below the head, and comparable with everything in the list. */
    ghost predicate Ahead(lo: int)
      reads this
    {
      forall i :: 0 <= i < |nodes| ==> nodes[0].lo <= lo && Near(lo, nodes[i].lo)
    }

    lemma HintCompares(lo: int)
      requires Valid() && nodes != [] && Ahead(lo)
      ensures lastInsertPos != -1 ==> 0 <= lastInsertPos < size
      ensures lastInsertPos != -1 && SeqCmp(data1[lastInsertPos], Wrap(lo)) < 0 ==>
                exists k :: 0 <= k < |nodes| && nodes[k].pos == lastInsertPos && nodes[k].lo < lo
    {
      if lastInsertPos != -1 {
        var k :| 0 <= k < |nodes| && nodes[k].pos == lastInsertPos;
        NodeCompares(k, lo);
      }
    }

    /** The last node that starts below seqno1, searched from the hint when that is usable. */
    method FindPrior(seqno1: int, ghost lo: int) returns (i: int, ghost k: int)
      requires Valid() && seqno1 == Wrap(lo)
      requires nodes != [] && nodes[0].lo < lo && Ahead(lo)
      ensures 0 <= k < |nodes| && i == nodes[k].pos && nodes[k].lo < lo
      ensures k + 1 < |nodes| ==> lo <= nodes[k + 1].lo
    {
      hide Chain, Fits, Stored, Elems, Count, Wrap, SeqCmp, Ahead;
      HintCompares(lo);
      if lastInsertPos != -1 && SeqCmp(data1[lastInsertPos], seqno1) < 0 {
        i := lastInsertPos;
        k :| 0 <= k < |nodes| && nodes[k].pos == lastInsertPos && nodes[k].lo < lo;
      } else {
        i := head;
        k := 0;
      }
      i, k := FindPriorFrom(i, seqno1, k, lo);
    }

    method FindPriorFrom(start: int, seqno1: int, ghost k0: int, ghost lo: int) returns (i: int, ghost k: int)
      requires Valid() && seqno1 == Wrap(lo) && Ahead(lo)
      requires 0 <= k0 < |nodes| && start == nodes[k0].pos && nodes[k0].lo < lo
      ensures 0 <= k < |nodes| && i == nodes[k].pos && nodes[k].lo < lo
      ensures k + 1 < |nodes| ==> lo <= nodes[k + 1].lo
    {
      hide Chain, Fits, Stored, Elems, Count, Wrap, SeqCmp, Ahead;
      i, k := start, k0;
      NextCompares(k, lo);
      while next[i] != -1 && SeqCmp(data1[next[i]], seqno1) < 0
        invariant 0 <= k < |nodes| && i == nodes[k].pos && nodes[k].lo < lo && 0 <= i < size
        invariant next[i] == -1 <==> k + 1 == |nodes|
        invariant next[i] != -1 ==>
                    && 0 <= next[i] < size && next[i] == nodes[k + 1].pos
                    && (SeqCmp(data1[next[i]], seqno1) < 0 <==> nodes[k + 1].lo < lo)
        decreases |nodes| - k
      {
        i, k := next[i], k + 1;
        NextCompares(k, lo);
      }
    }

    // ----- single changes -----

    /** Makes node k reach up to hi. */
    method Extend(loc: int, seqno2: int, added: int, ghost k: int, ghost hi: int)
      requires Valid() && 0 <= k < |nodes| && loc == nodes[k].pos
      requires nodes[k].hi < hi && seqno2 == Wrap(hi) && hi - nodes[0].lo < size
      requires added == hi - nodes[k].hi
      modifies this, data2
      ensures Rep(k) && nodes == old(nodes)[k := Node(old(nodes)[k].lo, hi, loc)]
      ensures head == old(head) && lastInsertPos == loc
    {
      hide Chain, Fits, Stored, Elems, Count, Wrap, Occupied;
      At(-1, k);
      ExtendSums(nodes, k, nodes[k].hi + 1, hi);
      ExtendShape(nodes, size, k, hi);
      NodesApart(nodes, size, -1);
      StoreExtend(nodes, size, data1[..], data2[..], next[..], k, hi);
      lastInsertPos := loc;
      length := length + added;
      data2[loc] := seqno2;
      nodes := nodes[k := Node(nodes[k].lo, hi, loc)];
    }

    /** What node k and its successor hold. */
    lemma NextHolds(k: nat)
      requires Rep(k) && k + 1 < |nodes| && nodes[k].lo < nodes[k].hi
      ensures var a, b := nodes[k], nodes[k + 1];
              && 0 <= a.pos < size && 0 <= b.pos < size && next[a.pos] == b.pos && a.lo < b.lo <= b.hi
              && data1[b.pos] == Wrap(b.lo) && data2[b.pos] == EndMark(b.lo, b.hi) && data2[a.pos] == Wrap(a.hi)
              && Near(b.lo, a.hi + 1) && Near(b.hi, a.hi) && Near(a.hi, b.lo) && 0 <= b.hi - b.lo < SEQ_NO_TH
    {
      hide Chain, Fits, Stored, Wrap, Count, Elems, Occupied;
      At(k, k);
      At(k, k + 1);
    }

    /** The tests that the coalescing loop makes on node k and its successor. */
    lemma MergeCompares(k: nat)
      requires Rep(k) && k + 1 < |nodes| && nodes[k].lo < nodes[k].hi
      ensures var a, b := nodes[k], nodes[k + 1];
              && 0 <= a.pos < size && 0 <= b.pos < size && next[a.pos] == b.pos && a.lo < b.lo <= b.hi
              && data1[b.pos] == Wrap(b.lo) && data2[b.pos] == EndMark(b.lo, b.hi) && data2[a.pos] == Wrap(a.hi)
              && (SeqCmp(data1[b.pos], IncSeq(data2[a.pos])) <= 0 <==> b.lo <= a.hi + 1)
              && (data1[b.pos] == IncSeq(data2[a.pos]) <==> b.lo == a.hi + 1)
              && (data2[b.pos] == -1 <==> b.lo == b.hi)
              && (b.lo < b.hi ==> (SeqCmp(data2[b.pos], data2[a.pos]) > 0 <==> b.hi > a.hi))
              && (SeqCmp(data2[a.pos], data1[b.pos]) >= 0 <==> a.hi >= b.lo)
              && (a.hi >= b.lo ==> SeqLen(data1[b.pos], data2[a.pos]) == a.hi - b.lo + 1)
              && (b.lo < b.hi ==> SeqLen(data1[b.pos], data2[b.pos]) == b.hi - b.lo + 1)
    {
      hide Rep, Wrap, SeqCmp, SeqLen, IncSeq, EndMark;
      NextHolds(k);
      StartTests(nodes[k], nodes[k + 1]);
      EndTests(nodes[k], nodes[k + 1]);
    }

    /** One round of the coalescing loop: the successor of node k is taken in. */
    method MergeNext(loc: int, ghost k: int)
      requires Rep(k) && 0 <= k && k + 1 < |nodes| && loc == nodes[k].pos == lastInsertPos
      requires nodes[k].lo < nodes[k].hi && nodes[k + 1].lo <= nodes[k].hi + 1
      modifies this, data1, data2, next
      ensures Rep(k) && nodes == Merged(old(nodes), k)
      ensures head == old(head) && lastInsertPos == loc
    {
      hide Chain, Fits, Stored, Elems, Count, Wrap, Occupied, SeqCmp, SeqLen, IncSeq, EndMark, Merged;
      ghost var ns, d1, d2, nx := nodes, data1[..], data2[..], next[..];
      MergeCompares(k);
      MergedSums(ns, k);
      MergedShape(ns, size, k);
      MergedFirst(ns, k);
      NodesApart(ns, size, k);
      StoreMerge(ns, size, d1, d2, nx, k);
      var i := next[loc];
      EndMarkIs(ns[k + 1].lo, ns[k + 1].hi);
      if data2[i] != -1 {
        if SeqCmp(data2[i], data2[loc]) > 0 {
          if SeqCmp(data2[loc], data1[i]) >= 0 {
            length := length - SeqLen(data1[i], data2[loc]);
          }
          data2[loc] := data2[i];
        } else {
          length := length - SeqLen(data1[i], data2[i]);
        }
      } else {
        if data1[i] == IncSeq(data2[loc]) {
          data2[loc] := data1[i];
        } else {
          length := length - 1;
        }
      }
      assert data2[..] == d2[loc := Wrap(Max(ns[k].hi, ns[k + 1].hi))];
      data1[i] := -1;
      data2[i] := -1;
      next[loc] := next[i];
      nodes := Merged(ns, k);
    }

    lemma TailCompares(k: nat)
      requires Rep(k) && k < |nodes|
      ensures 0 <= nodes[k].pos < size && nodes[k].lo <= nodes[k].hi
      ensures next[nodes[k].pos] == -1 <==> k + 1 == |nodes|
      ensures data2[nodes[k].pos] == -1 <==> nodes[k].lo == nodes[k].hi
      ensures k + 1 < |nodes| && nodes[k].lo < nodes[k].hi ==>
                var i := next[nodes[k].pos];
                0 <= i < size && (SeqCmp(data1[i], IncSeq(data2[nodes[k].pos])) <= 0 <==>
                    nodes[k + 1].lo <= nodes[k].hi + 1)
      ensures nodes[k].lo == nodes[k].hi || k + 1 == |nodes| || nodes[k + 1].lo > nodes[k].hi + 1 ==> Rep(-1)
    {
      hide Chain, Fits, Stored, Elems, Count, Wrap, Occupied, SeqCmp, IncSeq;
      At(k, k);
      if k + 1 < |nodes| {
        At(k, k + 1);
        if nodes[k].lo < nodes[k].hi { MergeCompares(k); }
      }
      if nodes[k].lo == nodes[k].hi || k + 1 == |nodes| || nodes[k + 1].lo > nodes[k].hi + 1 {
        ChainRestored(nodes, k);
      }
    }

    /** The loop at the end of insert: node k swallows the successors it runs into or touches. */
    method Coalesce(loc: int, ghost k: int)
      requires Rep(k) && 0 <= k < |nodes| && loc == nodes[k].pos == lastInsertPos
      modifies this, data1, data2, next
      ensures Valid() && nodes != [] && Lost() == old(Lost())
    {
      hide Chain, Fits, Stored, Elems, Count, Wrap, Occupied, SeqCmp, IncSeq, Merged;
      TailCompares(k);
      while next[loc] != -1 && data2[loc] != -1
        invariant Rep(k) && 0 <= k < |nodes| && loc == nodes[k].pos == lastInsertPos && 0 <= loc < size
        invariant Elems(nodes) == old(Lost())
        invariant next[loc] == -1 <==> k + 1 == |nodes|
        invariant data2[loc] == -1 <==> nodes[k].lo == nodes[k].hi
        invariant nodes[k].lo <= nodes[k].hi
        decreases |nodes|
      {
        TailCompares(k);
        var i := next[loc];
        if SeqCmp(data1[i], IncSeq(data2[loc])) <= 0 {
          MergedKeepsElems(nodes, size, k);
          MergeNext(loc, k);
          TailCompares(k);
        } else {
          break;
        }
      }
      TailCompares(k);
    }

    /** A new node in front of the head. */
    method LinkHead(loc: int, seqno1: int, seqno2: int, ghost n: Node)
      requires Valid() && RoomAt(nodes, size, 0, n) && loc == n.pos
      requires seqno1 == Wrap(n.lo) && seqno2 == Wrap(n.hi)
      modifies this, data1, data2, next
      ensures Rep(0) && nodes == Inserted(old(nodes), 0, n) && lastInsertPos == loc
      ensures nodes != [] && nodes[0] == n
    {
      hide Chain, Fits, Stored, Elems, Count, Wrap, Occupied, RoomAt, SeqLen, EndMark, Inserted;
      ghost var ns, d1, d2, nx := nodes, data1[..], data2[..], next[..];
      InsertFacts(ns, size, 0, n, d1, d2, nx);
      StoreFirst(ns, size, d1, d2, nx, n);
      data1[loc] := seqno1;
      if seqno2 != seqno1 {
        data2[loc] := seqno2;
      }
      assert data2[..] == d2[loc := EndMark(n.lo, n.hi)];
      next[loc] := head;
      head := loc;
      lastInsertPos := loc;
      length := length + SeqLen(seqno1, seqno2);
      nodes := Inserted(ns, 0, n);
    }

    /** A new node behind node k - 1, whose slot is i. */
    method LinkAfter(i: int, loc: int, seqno1: int, seqno2: int, ghost k: int, ghost n: Node)
      requires Valid() && 0 < k <= |nodes| && RoomAt(nodes, size, k, n) && loc == n.pos && i == nodes[k - 1].pos
      requires seqno1 == Wrap(n.lo) && seqno2 == Wrap(n.hi)
      modifies this, data1, data2, next
      ensures Rep(k) && nodes == Inserted(old(nodes), k, n) && lastInsertPos == loc
      ensures k < |nodes| && nodes[k] == n
    {
      hide Chain, Fits, Stored, Elems, Count, Wrap, Occupied, RoomAt, SeqLen, EndMark, Inserted;
      ghost var ns, d1, d2, nx := nodes, data1[..], data2[..], next[..];
      InsertFacts(ns, size, k, n, d1, d2, nx);
      NodesApart(ns, size, -1);
      StoreInsert(ns, size, d1, d2, nx, k, n);
      lastInsertPos := loc;
      data1[loc] := seqno1;
      if seqno2 != seqno1 {
        data2[loc] := seqno2;
      }
      assert data2[..] == d2[loc := EndMark(n.lo, n.hi)];
      next[loc] := next[i];
      next[i] := loc;
      length := length + SeqLen(seqno1, seqno2);
      nodes := Inserted(ns, k, n);
    }

    // ----- insert -----

    /** The interval fits the array together with everything already in the list. */
    ghost predicate InReach(lo: int, hi: int)
      reads this
    {
      && lo <= hi && hi - lo < size
      && (nodes != [] ==> hi - nodes[0].lo < size && nodes[|nodes| - 1].hi - lo < size)
    }

    lemma ReachOf(lo: int, hi: int)
      requires Valid()
      requires lo <= hi && hi - lo < size && forall x :: x in Lost() ==> hi - x < size && x - lo < size
      ensures InReach(lo, hi)
      ensures length == 0 <==> nodes == []
      ensures nodes != [] ==> -size < lo - nodes[0].lo < size
      ensures nodes != [] && nodes[0].lo <= lo ==> Ahead(lo)
    {
      CountPositive(nodes, -1);
      if nodes != [] {
        NodeCovers(nodes, 0, nodes[0].lo, nodes[0].lo);
        assert nodes[0].lo in Lost();
        var m := nodes[|nodes| - 1];
        NodeCovers(nodes, |nodes| - 1, m.hi, m.hi);
        assert m.hi in Lost();
      }
    }

    lemma LengthIsSize()
      requires Valid()
      ensures length == |Lost()|
    {
      CountIsSize(nodes);
    }

    lemma OffsetFromHead(lo: int)
      requires Valid() && nodes != [] && -size < lo - nodes[0].lo < size
      ensures 0 <= head < size && data1[head] == Wrap(nodes[0].lo)
      ensures var off := SeqOff(data1[head], Wrap(lo));
              off == lo - nodes[0].lo && (head + off + size) % size == Move(nodes[0].pos, lo - nodes[0].lo, size)
    {
      At(-1, 0);
      OffExact(nodes[0].lo, lo);
      ModIsMove(head, lo - nodes[0].lo, size);
    }

    lemma HeadRoom(lo: int, hi: int, loc: int)
      requires Valid() && nodes != [] && InReach(lo, hi) && lo < nodes[0].lo
      requires loc == Move(nodes[0].pos, lo - nodes[0].lo, size)
      ensures RoomAt(nodes, size, 0, Node(lo, hi, loc))
    {
    }

    method InsertEmpty(seqno1: int, seqno2: int, ghost lo: int, ghost hi: int)
      requires Valid() && length == 0
      requires lo <= hi && hi - lo < size && seqno1 == Wrap(lo) && seqno2 == Wrap(hi)
      modifies this, data1, data2, next
      ensures Valid() && old(Lost()) == {} && Lost() == Span(lo, hi)
    {
      hide Stored, Elems, Count, Wrap, SeqLen;
      ghost var n, d2 := Node(lo, hi, 0), data2[..];
      EmptyFacts(nodes, lo, hi);
      StoreFirst(nodes, size, data1[..], d2, next[..], n);
      BlankAt(nodes, size, data1[..], d2, next[..], 0);
      head := 0;
      data1[head] := seqno1;
      if seqno2 != seqno1 {
        data2[head] := seqno2;
      }
      assert data2[..] == d2[0 := EndMark(lo, hi)];
      next[head] := -1;
      lastInsertPos := head;
      length := length + SeqLen(seqno1, seqno2);
      nodes := [n];
      NodeOccupies(nodes, 0);
    }

    lemma GrowCompares(k: nat, lo: int, hi: int)
      requires Valid() && k < |nodes| && nodes[k].lo <= lo && InReach(lo, hi)
      ensures 0 <= nodes[k].pos < size && nodes[k].lo <= nodes[k].hi && lo <= hi && hi - nodes[0].lo < size
      ensures Occupied(nodes, nodes[k].pos)
      ensures data2[nodes[k].pos] == -1 <==> nodes[k].lo == nodes[k].hi
      ensures Wrap(lo) == Wrap(hi) <==> lo == hi
      ensures SeqLen(Wrap(lo), Wrap(hi)) == hi - lo + 1
      ensures nodes[k].lo < nodes[k].hi ==>
                && (SeqCmp(Wrap(hi), data2[nodes[k].pos]) > 0 <==> hi > nodes[k].hi)
                && (SeqCmp(data2[nodes[k].pos], Wrap(hi)) < 0 <==> hi > nodes[k].hi)
                && (SeqCmp(data2[nodes[k].pos], Wrap(lo)) < 0 <==> lo > nodes[k].hi)
                && (hi > nodes[k].hi ==> SeqLen(data2[nodes[k].pos], Wrap(hi)) == hi - nodes[k].hi + 1)
    {
      hide Chain, Fits, Stored, Elems, Count, Wrap, Occupied, SeqCmp, SeqLen;
      At(-1, k);
      EndMarkIs(nodes[k].lo, nodes[k].hi);
      WrapDifference(lo, hi);
      LenExact(lo, hi);
      CmpExact(hi, nodes[k].hi);
      CmpExact(nodes[k].hi, hi);
      CmpExact(nodes[k].hi, lo);
      if hi > nodes[k].hi { LenExact(nodes[k].hi, hi); }
    }

    /** The node already starts at seqno1: its end is pushed out, or nothing is new. */
    method GrowNode(loc: int, seqno1: int, seqno2: int, ghost k: int, ghost lo: int, ghost hi: int)
        returns (grown: bool)
      requires Valid() && 0 <= k < |nodes| && loc == nodes[k].pos && nodes[k].lo == lo
      requires InReach(lo, hi) && seqno1 == Wrap(lo) && seqno2 == Wrap(hi)
      modifies this, data2
      ensures grown ==>
                Rep(k) && k < |nodes| && nodes[k].pos == loc == lastInsertPos && Lost() == old(Lost()) + Span(lo, hi)
      ensures !grown ==> Valid() && nodes == old(nodes) && Span(lo, hi) <= Lost()
    {
      hide Chain, Fits, Stored, Elems, Count, Wrap, SeqCmp, SeqLen, InReach, Occupied;
      GrowCompares(k, lo, hi);
      if data2[loc] == -1 {
        if seqno2 != seqno1 {
          ExtendSums(nodes, k, lo, hi);
          Extend(loc, seqno2, SeqLen(seqno1, seqno2) - 1, k, hi);
          return true;
        }
      } else if SeqCmp(seqno2, data2[loc]) > 0 {
        ExtendSums(nodes, k, lo, hi);
        Extend(loc, seqno2, SeqLen(data2[loc], seqno2) - 1, k, hi);
        return true;
      }
      NodeCovers(nodes, k, lo, hi);
      lastInsertPos := loc;
      return false;
    }

    lemma PriorCompares(k: nat, lo: int, hi: int, loc: int)
      requires Valid() && k < |nodes| && nodes[k].lo < lo && InReach(lo, hi)
      requires k + 1 < |nodes| ==> lo <= nodes[k + 1].lo
      requires forall i :: 0 <= i < |nodes| ==> nodes[i].lo != lo
      requires loc == Move(nodes[0].pos, lo - nodes[0].lo, size)
      ensures 0 <= nodes[k].pos < size && nodes[k].lo <= nodes[k].hi && lo <= hi && hi - nodes[0].lo < size
      ensures Occupied(nodes, nodes[k].pos)
      ensures var d := data2[nodes[k].pos];
              && (d == -1 || SeqCmp(d, Wrap(lo)) < 0 <==> nodes[k].hi < lo)
              && (nodes[k].hi >= lo ==> (SeqCmp(d, Wrap(hi)) < 0 <==> nodes[k].hi < hi))
              && (nodes[k].hi >= lo && nodes[k].hi < hi ==> SeqLen(d, Wrap(hi)) == hi - nodes[k].hi + 1)
      ensures nodes[k].hi < lo ==> RoomAt(nodes, size, k + 1, Node(lo, hi, loc))
    {
      GrowCompares(k, lo, hi);
    }

    /** No node starts at seqno1: a new one goes behind its prior node, or that node grows, or nothing is new. */
    method PlaceBehind(i: int, loc: int, seqno1: int, seqno2: int, ghost k0: int, ghost lo: int, ghost hi: int)
      returns (grown: bool, at: int, ghost k: int)
      requires Valid() && 0 <= k0 < |nodes| && i == nodes[k0].pos && nodes[k0].lo < lo && InReach(lo, hi)
      requires k0 + 1 < |nodes| ==> lo <= nodes[k0 + 1].lo
      requires seqno1 == Wrap(lo) && seqno2 == Wrap(hi)
      requires loc == Move(nodes[0].pos, lo - nodes[0].lo, size)
      requires forall i :: 0 <= i < |nodes| ==> nodes[i].lo != lo
      modifies this, data1, data2, next
      ensures grown ==>
                && 0 <= k < |nodes| && Rep(k) && nodes[k].pos == at == lastInsertPos
                && Lost() == old(Lost()) + Span(lo, hi)
      ensures !grown ==> Valid() && Lost() == old(Lost()) && Span(lo, hi) <= Lost()
    {
      hide Chain, Fits, Stored, Elems, Count, Wrap, SeqCmp, SeqLen, Move, Occupied, Inserted, InReach, RoomAt;
      k := k0;
      PriorCompares(k, lo, hi, loc);
      if data2[i] == -1 || SeqCmp(data2[i], seqno1) < 0 {
        ghost var n := Node(lo, hi, loc);
        InsertedSums(nodes, k + 1, n);
        LinkAfter(i, loc, seqno1, seqno2, k + 1, n);
        return true, loc, k + 1;
      }
      if SeqCmp(data2[i], seqno2) < 0 {
        ExtendSums(nodes, k, lo, hi);
        Extend(i, seqno2, SeqLen(data2[i], seqno2) - 1, k, hi);
        return true, i, k;
      }
      NodeCovers(nodes, k, lo, hi);
      lastInsertPos := i;
      return false, i, k;
    }

    /**
     insert: adds [lo, hi] and returns how many numbers are new. The numbers must fit the array together
     with the ones already there.
     */
    method Insert(seqno1: int, seqno2: int, ghost lo: int, ghost hi: int) returns (added: int)
      requires Valid()
      requires lo <= hi && hi - lo < size && forall x :: x in Lost() ==> hi - x < size && x - lo < size
      requires seqno1 == Wrap(lo) && seqno2 == Wrap(hi)
      modifies this, data1, data2, next
      ensures Valid()
      ensures Lost() == old(Lost()) + Span(lo, hi)
      ensures added == |Lost()| - |old(Lost())|
    {
      hide Chain, Fits, Stored, Elems, Count, Wrap, SeqOff, Move, Occupied, Inserted, InReach, Ahead, RoomAt;
      ReachOf(lo, hi);
      LengthIsSize();
      if length == 0 {
        InsertEmpty(seqno1, seqno2, lo, hi);
        LengthIsSize();
        return length;
      }
      var origlen := length;
      OffsetFromHead(lo);
      var offset := SeqOff(data1[head], seqno1);
      var loc := (head + offset + size) % size;
      var grown, at := true, loc;
      ghost var k := 0;
      if offset < 0 {
        HeadRoom(lo, hi, loc);
        InsertedSums(nodes, 0, Node(lo, hi, loc));
        LinkHead(loc, seqno1, seqno2, Node(lo, hi, loc));
      } else {
        k := SlotOf(lo);
        if seqno1 == data1[loc] {
          grown := GrowNode(loc, seqno1, seqno2, k, lo, hi);
        } else {
          var i;
          i, k := FindPrior(seqno1, lo);
          grown, at, k := PlaceBehind(i, loc, seqno1, seqno2, k, lo, hi);
        }
      }
      if !grown {
        return 0;
      }
      Coalesce(at, k);
      LengthIsSize();
      return length - origlen;
    }

    // ----- removal -----

    /** Takes the first number off the list; the rest of its interval moves to the next slot. */
    method TrimHead()
      requires Valid() && nodes != []
      modifies this, data1, data2, next
      ensures Valid() && nodes == Trimmed(old(nodes), size)
    {
      hide Chain, Fits, Stored, Elems, Count, Wrap, SeqCmp, Occupied, EndMark, Trimmed;
      ghost var ns, d1, d2, nx := nodes, data1[..], data2[..], next[..];
      At(-1, 0);
      TrimFacts(ns, size, d1, d2, nx);
      if lastInsertPos == head {
        lastInsertPos := -1;
      }
      if data2[head] == -1 {
        data1[head] := -1;
        assert data2[..] == d2[ns[0].pos := -1];
        head := next[head];
      } else {
        var loc := (head + 1) % size;
        data1[loc] := IncSeq(data1[head]);
        if SeqCmp(data2[head], data1[loc]) > 0 {
          data2[loc] := data2[head];
        }
        assert data2[..] == d2[loc := EndMark(ns[0].lo + 1, ns[0].hi)];
        data1[head] := -1;
        data2[head] := -1;
        next[loc] := next[head];
        head := loc;
      }
      length := length - 1;
      nodes := Trimmed(ns, size);
    }

    /** getLostSeq: removes and returns the smallest number, or -1 when there is none. */
    method GetLostSeq() returns (seqno: int)
      requires Valid()
      modifies this, data1, data2, next
      ensures Valid()
      ensures old(Lost()) == {} ==> seqno == -1 && Lost() == {}
      ensures old(Lost()) != {} ==> seqno == Wrap(Least(old(Lost()))) && Lost() == old(Lost()) - {Least(old(Lost()))}
    {
      hide Chain, Fits, Stored, Elems, Count, Wrap, Occupied, Trimmed;
      LostIsEmpty();
      if length == 0 {
        return -1;
      }
      HeadIsLeast(nodes);
      TrimmedSums(nodes, size);
      At(-1, 0);
      seqno := data1[head];
      TrimHead();
    }

    lemma LostIsEmpty()
      requires Valid()
      ensures length == 0 <==> nodes == []
      ensures Lost() == {} <==> nodes == []
    {
      CountPositive(nodes, -1);
      if nodes != [] { HeadIsLeast(nodes); }
    }

    /** Node k is cut behind seqno; the part above it starts a node of its own in the next slot. */
    method SplitNode(seqno: int, i: int, loc: int, ghost k: int, ghost s: int)
      requires Valid() && 0 <= k < |nodes| && i == nodes[k].pos
      requires nodes[k].lo <= s < nodes[k].hi && seqno == Wrap(s)
      requires loc == Move(nodes[0].pos, s + 1 - nodes[0].lo, size)
      modifies this, data1, data2, next
      ensures Valid() && nodes == Split(old(nodes), k, s, loc) && head == old(head) && Lost() == old(Lost())
      ensures k + 1 < |nodes| && nodes[k].hi == s && nodes[k + 1].lo == s + 1 && nodes[k + 1].pos == loc
    {
      hide Chain, Fits, Stored, Elems, Count, Wrap, SeqCmp, Occupied, Move, Split, IncSeq, EndMark;
      ghost var ns, d1, d2, nx := nodes, data1[..], data2[..], next[..];
      At(-1, k);
      SplitFacts(ns, size, d1, d2, nx, k, s);
      data1[loc] := IncSeq(seqno);
      if SeqCmp(data2[i], data1[loc]) > 0 {
        data2[loc] := data2[i];
      }
      assert data2[..] == d2[loc := EndMark(s + 1, ns[k].hi)];
      data2[i] := if data1[i] == seqno then -1 else seqno;
      next[loc] := next[i];
      next[i] := loc;
      nodes := Split(ns, k, s, loc);
    }

    /** The final loop of remove: every node before the one at newHead is blanked. */
    method DropUntil(newHead: int, ghost k: int)
      requires Valid() && 0 <= k <= |nodes| && nodes != []
      requires newHead == if k < |nodes| then nodes[k].pos else -1
      modifies this, data1, data2
      ensures Valid() && nodes == old(nodes)[k..]
    {
      hide Chain, Fits, Stored, Elems, Count, Wrap, SeqLen, Occupied, EndMark;
      var h := head;
      head := newHead;
      ghost var all, j := nodes, 0;
      ListEnds(all, size, k);
      while h != head
        invariant 0 <= j <= k && nodes == all[j..] && head == newHead
        invariant h == if j < |all| then all[j].pos else -1
        invariant Arrays() && Chain(nodes, -1) && Fits(nodes, size)
        invariant Stored(nodes, size, data1[..], data2[..], next[..])
        invariant length == Count(nodes)
        invariant lastInsertPos == -1 || Occupied(nodes, lastInsertPos)
        decreases k - j
      {
        ghost var ns, d1, d2 := nodes, data1[..], data2[..];
        ReadNode(ns, size, d1, d2, next[..], 0);
        DropFacts(ns, size, d1, d2, next[..]);
        if data2[h] != -1 {
          length := length - SeqLen(data1[h], data2[h]);
          data2[h] := -1;
        } else {
          length := length - 1;
        }
        assert data2[..] == d2[h := -1];
        data1[h] := -1;
        if lastInsertPos == h {
          lastInsertPos := -1;
        }
        h := next[h];
        nodes := nodes[1..];
        j := j + 1;
      }
    }

    /** What remove finds out about the slot of s. */
    lemma RemoveSlot(s: int)
      requires Valid() && nodes != [] && nodes[0].lo < s && Comparable(s)
      ensures 0 <= head < size && data1[head] == Wrap(nodes[0].lo) && SeqOff(data1[head], Wrap(s)) == s - nodes[0].lo
      ensures var loc := (head + (s - nodes[0].lo) + size) % size;
              && 0 <= loc < size
              && (data1[loc] == Wrap(s) ==> exists k :: 0 <= k < |nodes| && nodes[k].lo == s && nodes[k].pos == loc)
              && (data1[loc] != Wrap(s) ==> forall i :: 0 <= i < |nodes| ==> nodes[i].lo != s)
              && (s + 1 - nodes[0].lo < size ==> (loc + 1) % size == Move(nodes[0].pos, s + 1 - nodes[0].lo, size))
    {
      hide Chain, Fits, Stored, Elems, Count, Wrap, SeqOff, Occupied, Move;
      At(-1, 0);
      HeadNear(s);
      OffExact(nodes[0].lo, s);
      StartsHere(s, (head + (s - nodes[0].lo) + size) % size);
      if s - nodes[0].lo < size {
        SlotInRange(s);
      } else {
        StartsInside(s);
      }
    }

    lemma SlotInRange(s: int)
      requires Valid() && nodes != [] && nodes[0].lo < s < nodes[0].lo + size
      ensures 0 <= head < size
      ensures var loc := (head + (s - nodes[0].lo) + size) % size;
              && (data1[loc] != Wrap(s) ==> forall i :: 0 <= i < |nodes| ==> nodes[i].lo != s)
              && (s + 1 - nodes[0].lo < size ==> (loc + 1) % size == Move(nodes[0].pos, s + 1 - nodes[0].lo, size))
    {
      hide Chain, Fits, Stored, Elems, Count, Wrap, SeqOff, Occupied, Move;
      At(-1, 0);
      ModIsMove(head, s - nodes[0].lo, size);
      var k := SlotOf(s);
      if s + 1 - nodes[0].lo < size { StepSlot(head, s - nodes[0].lo, size); }
    }

    lemma HeadNear(s: int)
      requires nodes != [] && Comparable(s)
      ensures Near(s, nodes[0].lo)
    {
    }

    lemma StartsInside(s: int)
      requires Valid() && nodes != [] && s - nodes[0].lo >= size
      ensures forall i :: 0 <= i < |nodes| ==> nodes[i].lo != s
    {
    }

    /** Close enough to everything in the list to be compared with it. */
    ghost predicate Comparable(s: int)
      reads this
    {
      forall i :: 0 <= i < |nodes| ==> Near(s, nodes[i].lo) && Near(s, nodes[i].hi)
    }

    lemma StartsHere(s: int, loc: int)
      requires Valid() && nodes != [] && Comparable(s) && 0 <= loc < size
      ensures data1[loc] == Wrap(s) ==> exists k :: 0 <= k < |nodes| && nodes[k].lo == s && nodes[k].pos == loc
    {
      if data1[loc] == Wrap(s) {
        BlankUnless(loc);
        var k :| 0 <= k < |nodes| && nodes[k].pos == loc;
        At(-1, k);
        WrapDifference(s, nodes[k].lo);
      }
    }

    lemma BlankUnless(loc: int)
      requires Valid() && 0 <= loc < size
      ensures Occupied(nodes, loc) || data1[loc] == -1
    {
      if !Occupied(nodes, loc) { BlankAt(nodes, size, data1[..], data2[..], next[..], loc); }
    }

    lemma ComparableNow(s: int)
      requires Valid() && forall x :: x in Lost() ==> Near(s, x)
      ensures Comparable(s)
      ensures length == 0 <==> nodes == []
      ensures nodes != [] && nodes[0].lo <= s ==> Ahead(s)
      ensures nodes != [] && s < nodes[0].lo ==> forall x :: x in Lost() ==> x > s
      ensures nodes != [] ==> Near(s, nodes[0].lo)
    {
      CountPositive(nodes, -1);
      forall i | 0 <= i < |nodes|
        ensures Near(s, nodes[i].lo) && Near(s, nodes[i].hi)
      {
        NodeCovers(nodes, i, nodes[i].lo, nodes[i].lo);
        NodeCovers(nodes, i, nodes[i].hi, nodes[i].hi);
        assert nodes[i].lo in Span(nodes[i].lo, nodes[i].lo) && nodes[i].hi in Span(nodes[i].hi, nodes[i].hi);
      }
      if nodes != [] { HeadIsLeast(nodes); }
    }

    lemma EndCompares(k: nat, s: int)
      requires Valid() && k < |nodes| && Comparable(s)
      ensures 0 <= nodes[k].pos < size && nodes[k].lo <= nodes[k].hi && nodes[k].hi - nodes[0].lo < size
      ensures data2[nodes[k].pos] == -1 <==> nodes[k].lo == nodes[k].hi
      ensures next[nodes[k].pos] == if k + 1 < |nodes| then nodes[k + 1].pos else -1
      ensures nodes[k].lo < nodes[k].hi ==> (SeqCmp(data2[nodes[k].pos], Wrap(s)) > 0 <==> nodes[k].hi > s)
    {
      At(-1, k);
      CmpExact(nodes[k].hi, s);
    }

    /** Everything up to s, which lies in node k or behind it but before node k + 1, is unlinked. */
    method CutBehind(seqno: int, i: int, loc: int, ghost k: int, ghost s: int)
      requires Valid() && Comparable(s) && 0 <= k < |nodes| && i == nodes[k].pos && seqno == Wrap(s)
      requires nodes[k].lo <= s && (k + 1 < |nodes| ==> s < nodes[k + 1].lo)
      requires s < nodes[k].hi ==> loc == Move(nodes[0].pos, s + 1 - nodes[0].lo, size)
      modifies this, data1, data2, next
      ensures Valid() && forall x :: x in Lost() <==> x in old(Lost()) && x > s
    {
      hide Chain, Fits, Stored, Elems, Count, Wrap, SeqCmp, Occupied, Move, Split, Comparable;
      EndCompares(k, s);
      var newHead := next[i];
      if data2[i] != -1 && SeqCmp(data2[i], seqno) > 0 {
        SplitNode(seqno, i, loc, k, s);
        newHead := loc;
      }
      CutSums(nodes, k + 1, s);
      DropUntil(newHead, k + 1);
    }

    /** remove: deletes every number up to and including seqno. */
    method Remove(seqno: int, ghost s: int)
      requires Valid() && seqno == Wrap(s)
      requires forall x :: x in Lost() ==> Near(s, x)
      modifies this, data1, data2, next
      ensures Valid()
      ensures forall x :: x in Lost() <==> x in old(Lost()) && x > s
    {
      hide Chain, Fits, Stored, Elems, Count, Wrap, SeqOff, Occupied, Move, Comparable, Ahead, Trimmed;
      ComparableNow(s);
      LostIsEmpty();
      if length == 0 {
        return;
      }
      At(-1, 0);
      OffExact(nodes[0].lo, s);
      var offset := SeqOff(data1[head], seqno);
      var loc := (head + offset + size) % size;
      if offset == 0 {
        HeadIsLeast(nodes);
        TrimmedSums(nodes, size);
        TrimHead();
      } else if offset > 0 {
        RemoveSlot(s);
        var i;
        ghost var k;
        if seqno == data1[loc] {
          i := loc;
          k :| 0 <= k < |nodes| && nodes[k].lo == s && nodes[k].pos == loc;
          NextBegins(nodes, k);
        } else {
          i, k := FindPriorFrom(head, seqno, 0, s);
        }
        EndCompares(k, s);
        loc := (loc + 1) % size;
        CutBehind(seqno, i, loc, k, s);
      }
    }
  }

  // ----- facts about the chain that the methods use -----

  lemma SlotsAgree(ns: seq<Node>, size: int, k: nat, lo: int)
    requires k < |ns| && Fits(ns, size) && 0 <= lo - ns[0].lo < size
    requires ns[k].pos == Move(ns[0].pos, lo - ns[0].lo, size)
    ensures ns[k].lo == lo
  {
    var h, d, e := ns[0].pos, ns[k].lo - ns[0].lo, lo - ns[0].lo;
    if d < e {
      SlotsDiffer(h, d, e, size);
    } else if e < d {
      SlotsDiffer(h, e, d, size);
    }
  }

  lemma NodeCovers(ns: seq<Node>, k: nat, lo: int, hi: int)
    requires k < |ns| && ns[k].lo <= lo && hi <= ns[k].hi
    ensures Span(lo, hi) <= Elems(ns)
  {
    RemovedSums(ns, k);
  }

  lemma EmptyFacts(ns: seq<Node>, lo: int, hi: int)
    requires Chain(ns, -1) && Count(ns) == 0 && lo <= hi < lo + SEQ_NO_TH
    ensures ns == [] && Elems(ns) == {} && !Occupied(ns, 0)
    ensures Wrap(lo) == Wrap(hi) <==> lo == hi
    ensures SeqLen(Wrap(lo), Wrap(hi)) == hi - lo + 1
    ensures Inserted(ns, 0, Node(lo, hi, 0)) == [Node(lo, hi, 0)]
    ensures Count([Node(lo, hi, 0)]) == hi - lo + 1 && Elems([Node(lo, hi, 0)]) == Span(lo, hi)
  {
    CountPositive(ns, -1);
    WrapDifference(lo, hi);
    LenExact(lo, hi);
    OneNode(Node(lo, hi, 0));
  }

  /** All that shortening the head needs to know. */
  lemma TrimFacts(ns: seq<Node>, size: int, d1: seq<int>, d2: seq<int>, nx: seq<int>)
    requires ns != [] && Chain(ns, -1) && Fits(ns, size) && Stored(ns, size, d1, d2, nx) && size < SEQ_NO_TH
    ensures var n, ms := ns[0], Trimmed(ns, size);
            && 0 <= n.pos < size && Chain(ms, -1) && Fits(ms, size) && Count(ms) == Count(ns) - 1
            && (d2[n.pos] == -1 <==> n.lo == n.hi)
            && (d2[n.pos] == -1 ==>
                  && Stored(ms, size, d1[n.pos := -1], d2[n.pos := -1], nx)
                  && (ms != [] ==> nx[n.pos] == ms[0].pos)
                  && forall p :: Occupied(ns, p) && p != n.pos ==> Occupied(ms, p))
            && (d2[n.pos] != -1 ==>
                  var loc := (n.pos + 1) % size;
                  && 0 <= loc < size && loc != n.pos && d2[loc] == -1
                  && IncSeq(d1[n.pos]) == Wrap(n.lo + 1)
                  && (SeqCmp(d2[n.pos], Wrap(n.lo + 1)) > 0 <==> n.lo + 1 < n.hi)
                  && EndMark(n.lo + 1, n.hi) == (if n.lo + 1 == n.hi then -1 else d2[n.pos]) && n.lo < n.hi
                  && Stored(ms, size, d1[loc := Wrap(n.lo + 1)][n.pos := -1],
                      d2[loc := EndMark(n.lo + 1, n.hi)][n.pos := -1],
                            nx[loc := nx[n.pos]])
                  && ms != [] && ms[0].pos == loc
                  && forall p :: Occupied(ns, p) && p != n.pos ==> Occupied(ms, p))
  {
    hide Chain, Fits, Stored, Elems, Count, Occupied, Wrap, SeqCmp;
    ReadNode(ns, size, d1, d2, nx, 0);
    TrimmedShape(ns, size);
    TrimmedSums(ns, size);
    NodesApart(ns, size, -1);
    StoreDrop(ns, size, d1, d2, nx);
    HeadOrdered(ns);
    if ns[0].lo < ns[0].hi {
      ShiftFacts(ns, size, d1, d2, nx);
    }
  }

  lemma HeadOrdered(ns: seq<Node>)
    requires ns != [] && Chain(ns, -1)
    ensures ns[0].lo <= ns[0].hi
  {
  }

  lemma ShiftFacts(ns: seq<Node>, size: int, d1: seq<int>, d2: seq<int>, nx: seq<int>)
    requires ns != [] && Chain(ns, -1) && Fits(ns, size) && Stored(ns, size, d1, d2, nx) && size < SEQ_NO_TH
    requires ns[0].lo < ns[0].hi && Apart(ns)
    ensures var n, ms := ns[0], Trimmed(ns, size);
            var loc := (n.pos + 1) % size;
            && 0 <= n.pos < size && 0 <= loc < size && loc != n.pos && d2[loc] == -1
            && IncSeq(d1[n.pos]) == Wrap(n.lo + 1)
            && (SeqCmp(d2[n.pos], Wrap(n.lo + 1)) > 0 <==> n.lo + 1 < n.hi)
            && Stored(ms, size, d1[loc := Wrap(n.lo + 1)][n.pos := -1], d2[loc := EndMark(n.lo + 1, n.hi)][n.pos := -1],
                      nx[loc := nx[n.pos]])
            && ms != [] && ms[0].pos == loc
            && forall p :: Occupied(ns, p) && p != n.pos ==> Occupied(ms, p)
  {
    var n, m := ns[0], Node(ns[0].lo + 1, ns[0].hi, Move(ns[0].pos, 1, size));
    ReadNode(ns, size, d1, d2, nx, 0);
    hide Chain, Fits, Stored, Occupied, Wrap, SeqCmp, IncSeq, Move, EndMark, Inserted;
    HeadSlots(ns, size);
    ShiftNumbers(ns, size);
    BlankAt(ns, size, d1, d2, nx, m.pos);
    StoreDrop(ns, size, d1, d2, nx);
    StoreFirst(ns[1..], size, d1[n.pos := -1], d2[n.pos := -1], nx, m);
    InsertedPositions(ns[1..], 0, m);
    TrimmedIsInserted(ns, size);
    SwapUpdates(d1, n.pos, -1, m.pos, Wrap(m.lo));
    SwapUpdates(d2, n.pos, -1, m.pos, EndMark(m.lo, m.hi));
    EndMarkIs(n.lo, n.hi);
  }

  lemma TrimmedIsInserted(ns: seq<Node>, size: int)
    requires ns != [] && ns[0].lo < ns[0].hi
    ensures var m := Node(ns[0].lo + 1, ns[0].hi, Move(ns[0].pos, 1, size));
            Trimmed(ns, size) == Inserted(ns[1..], 0, m) && Trimmed(ns, size) != [] && Trimmed(ns, size)[0] == m
  {
  }

  lemma HeadSlots(ns: seq<Node>, size: int)
    requires ns != [] && Chain(ns, -1) && Fits(ns, size) && ns[0].lo < ns[0].hi
    ensures var loc := Move(ns[0].pos, 1, size);
            0 <= loc < size && loc != ns[0].pos && !Occupied(ns, loc)
  {
    InsideFree(ns, size, 0, ns[0].lo);
    NodeOccupies(ns, 0);
  }

  lemma ShiftNumbers(ns: seq<Node>, size: int)
    requires ns != [] && Fits(ns, size) && ns[0].lo < ns[0].hi && size < SEQ_NO_TH
    ensures (ns[0].pos + 1) % size == Move(ns[0].pos, 1, size)
    ensures IncSeq(Wrap(ns[0].lo)) == Wrap(ns[0].lo + 1)
    ensures SeqCmp(Wrap(ns[0].hi), Wrap(ns[0].lo + 1)) > 0 <==> ns[0].lo + 1 < ns[0].hi
  {
    ModIsMove(ns[0].pos, 1, size);
    IncExact(ns[0].lo);
    CmpExact(ns[0].hi, ns[0].lo + 1);
  }

  /** All that cutting a node needs to know. */
  lemma SplitFacts(ns: seq<Node>, size: int, d1: seq<int>, d2: seq<int>, nx: seq<int>, k: nat, s: int)
    requires k < |ns| && Chain(ns, -1) && Fits(ns, size) && ns[k].lo <= s < ns[k].hi && size < SEQ_NO_TH
    requires Stored(ns, size, d1, d2, nx)
    ensures var loc := Move(ns[0].pos, s + 1 - ns[0].lo, size);
            var i, ms := ns[k].pos, Split(ns, k, s, loc);
            && |ms| == |ns| + 1 && ms[0].pos == ns[0].pos
            && ms[k] == Node(ns[k].lo, s, ns[k].pos) && ms[k + 1] == Node(s + 1, ns[k].hi, loc)
            && Chain(ms, -1) && Fits(ms, size) && Count(ms) == Count(ns) && Elems(ms) == Elems(ns)
            && 0 <= loc < size && loc != i && 0 <= i < size && d2[loc] == -1
            && (forall p :: Occupied(ns, p) ==> Occupied(ms, p))
            && Stored(ms, size, d1[loc := Wrap(s + 1)], d2[loc := EndMark(s + 1, ns[k].hi)][i := EndMark(ns[k].lo, s)],
                      nx[loc := nx[i]][i := loc])
            && IncSeq(Wrap(s)) == Wrap(s + 1)
            && EndMark(ns[k].lo, s) == (if d1[i] == Wrap(s) then -1 else Wrap(s))
            && d2[i] == Wrap(ns[k].hi)
            && EndMark(s + 1, ns[k].hi) == (if SeqCmp(d2[i], Wrap(s + 1)) > 0 then d2[i] else -1)
  {
    hide Chain, Fits, Stored, Elems, Count, Move, Wrap, SeqCmp, RoomAt, Occupied;
    var loc := Move(ns[0].pos, s + 1 - ns[0].lo, size);
    ReadNode(ns, size, d1, d2, nx, k);
    InsideFree(ns, size, k, s);
    BlankAt(ns, size, d1, d2, nx, loc);
    NodesApart(ns, size, -1);
    StoreSplit(ns, size, d1, d2, nx, k, s, loc);
    SplitSums(ns, k, s, loc);
    SplitShape(ns, size, k, s);
    SplitCompares(ns, size, k, s);
  }

  lemma SplitShape(ns: seq<Node>, size: int, k: nat, s: int)
    requires k < |ns| && Chain(ns, -1) && Fits(ns, size) && ns[k].lo <= s < ns[k].hi
    ensures var loc := Move(ns[0].pos, s + 1 - ns[0].lo, size);
            var ms := Split(ns, k, s, loc);
            Chain(ms, -1) && Fits(ms, size) && forall p :: Occupied(ns, p) ==> Occupied(ms, p)
  {
    hide Chain, Fits, Move, RoomAt, Occupied;
    var loc := Move(ns[0].pos, s + 1 - ns[0].lo, size);
    var a, b := Node(ns[k].lo, s, ns[k].pos), Node(s + 1, ns[k].hi, loc);
    SplitRoom(ns, size, k, s);
    SamePositions(ns, ns[k := a]);
    InsertedChain(ns[k := a], size, k + 1, b);
    InsertedFits(ns[k := a], size, k + 1, b);
    InsertedPositions(ns[k := a], k + 1, b);
    SplitChain(ns, size, k, s, loc);
  }

  lemma SplitChain(ns: seq<Node>, size: int, k: nat, s: int, loc: int)
    requires k < |ns| && Chain(ns, -1) && ns[k].lo <= s < ns[k].hi
    requires Chain(Split(ns, k, s, loc), k + 1)
    ensures Chain(Split(ns, k, s, loc), -1)
  {
    var ms := Split(ns, k, s, loc);
    forall i, j | 0 <= i < j < |ms|
      ensures ms[i].hi < ms[j].lo
    {
      if i == k + 1 { assert ms[j] == ns[j - 1] && ns[k].hi < ns[j - 1].lo; }
    }
  }

  lemma SplitCompares(ns: seq<Node>, size: int, k: nat, s: int)
    requires k < |ns| && Fits(ns, size) && ns[k].lo <= s < ns[k].hi && size < SEQ_NO_TH
    ensures IncSeq(Wrap(s)) == Wrap(s + 1)
    ensures Wrap(ns[k].lo) == Wrap(s) <==> ns[k].lo == s
    ensures SeqCmp(Wrap(ns[k].hi), Wrap(s + 1)) > 0 <==> ns[k].hi > s + 1
  {
    IncExact(s);
    WrapDifference(ns[k].lo, s);
    CmpExact(ns[k].hi, s + 1);
  }

  lemma ListEnds(ns: seq<Node>, size: int, k: nat)
    requires k <= |ns| && Chain(ns, -1) && Fits(ns, size)
    ensures forall j :: 0 <= j < k ==> (if k < |ns| then ns[k].pos else -1) != ns[j].pos
    ensures ns[0..] == ns
  {
    NodesApart(ns, size, -1);
    forall j | 0 <= j < k
      ensures 0 <= ns[j].pos
    {
      InRange(ns, size, j);
    }
  }

  /** All that unlinking the whole first node needs to know. */
  lemma DropFacts(ns: seq<Node>, size: int, d1: seq<int>, d2: seq<int>, nx: seq<int>)
    requires ns != [] && Chain(ns, -1) && Fits(ns, size) && Stored(ns, size, d1, d2, nx) && size < SEQ_NO_TH
    ensures var n := ns[0];
            && 0 <= n.pos < size && n.lo <= n.hi
            && Chain(ns[1..], -1) && Fits(ns[1..], size)
            && Stored(ns[1..], size, d1[n.pos := -1], d2[n.pos := -1], nx)
            && (forall p :: Occupied(ns, p) && p != n.pos ==> Occupied(ns[1..], p))
            && Count(ns) == n.Len() + Count(ns[1..])
            && (d2[n.pos] == -1 <==> n.lo == n.hi)
            && (n.lo < n.hi ==> SeqLen(d1[n.pos], d2[n.pos]) == n.Len())
  {
    hide Stored, Elems, Count, Occupied, Wrap, SeqLen;
    ReadNode(ns, size, d1, d2, nx, 0);
    NodesApart(ns, size, -1);
    StoreDrop(ns, size, d1, d2, nx);
    HeadSums(ns);
    if |ns| > 1 { DropNodes(ns, size, 1); }
    LenExact(ns[0].lo, ns[0].hi);
  }

  lemma StepSlot(h: int, d: int, size: int)
    requires 0 <= h < size && 0 <= d && d + 1 < size
    ensures (Move(h, d, size) + 1) % size == Move(h, d + 1, size)
  {
    ModIsMove(Move(h, d, size), 1, size);
  }

  lemma NextBegins(ns: seq<Node>, k: nat)
    requires k < |ns| && Chain(ns, -1)
    ensures k + 1 < |ns| ==> ns[k].lo < ns[k + 1].lo
  {
  }

  lemma CutSums(ns: seq<Node>, k: nat, s: int)
    requires 0 < k <= |ns| && Chain(ns, -1) && ns[k - 1].hi <= s && (k < |ns| ==> s < ns[k].lo)
    ensures forall x :: x in Elems(ns[k..]) <==> x in Elems(ns) && x > s
  {
    forall i | 0 <= i < k
      ensures ns[i].hi <= s
    {
      assert ns[i].hi <= ns[k - 1].hi;
    }
    DropSums(ns, k, s);
  }

  lemma MergedFirst(ns: seq<Node>, k: nat)
    requires k + 1 < |ns|
    ensures Merged(ns, k) != [] && Merged(ns, k)[0].pos == ns[0].pos
    ensures Occupied(Merged(ns, k), ns[k].pos)
  {
    MergedAt(ns, k);
    assert Merged(ns, k)[k].pos == ns[k].pos;
  }

  /** Once node k stops short of its successor, the list is a chain again. */
  lemma ChainRestored(ns: seq<Node>, k: nat)
    requires k < |ns| && Chain(ns, k)
    requires ns[k].lo == ns[k].hi || k + 1 == |ns| || ns[k + 1].lo > ns[k].hi + 1
    ensures Chain(ns, -1)
  {
    forall i, j | 0 <= i < j < |ns|
      ensures ns[i].hi < ns[j].lo
    {
      if i == k && j > k + 1 { assert ns[k + 1].lo < ns[j].lo; }
    }
  }

  lemma MergedKeepsElems(ns: seq<Node>, size: int, k: nat)
    requires k + 1 < |ns| && Chain(ns, k) && Fits(ns, size)
    requires ns[k].lo < ns[k].hi && ns[k + 1].lo <= ns[k].hi + 1
    ensures Elems(Merged(ns, k)) == Elems(ns) && |Merged(ns, k)| == |ns| - 1
    ensures Merged(ns, k)[k].pos == ns[k].pos && Merged(ns, k)[k].lo <= Merged(ns, k)[k].hi
  {
    MergedSums(ns, k);
    MergedAt(ns, k);
  }

  /** All that linking a new node needs to know. */
  lemma InsertFacts(ns: seq<Node>, size: int, k: nat, n: Node, d1: seq<int>, d2: seq<int>, nx: seq<int>)
    requires k <= |ns| && RoomAt(ns, size, k, n) && size < SEQ_NO_TH && Stored(ns, size, d1, d2, nx)
    ensures ns != []
    ensures var ms := Inserted(ns, k, n);
            && |ms| == |ns| + 1 && ms[k] == n && (k > 0 ==> ms[0] == ns[0])
            && Chain(ms, k) && Fits(ms, size) && Occupied(ms, n.pos)
            && Count(ms) == Count(ns) + n.Len()
    ensures 0 <= n.pos < size && !Occupied(ns, n.pos) && d2[n.pos] == -1
    ensures k > 0 ==> ns[k - 1].pos != n.pos
    ensures Wrap(n.lo) == Wrap(n.hi) <==> n.lo == n.hi
    ensures EndMark(n.lo, n.hi) == if n.lo == n.hi then -1 else Wrap(n.hi)
    ensures SeqLen(Wrap(n.lo), Wrap(n.hi)) == n.Len()
  {
    hide RoomAt, Chain, Fits, Elems, Count, Inserted, SeqLen, Wrap, Stored;
    InsertedAt(ns, k, n);
    InsertedChain(ns, size, k, n);
    InsertedFits(ns, size, k, n);
    InsertedPositions(ns, k, n);
    InsertedSums(ns, k, n);
    NewSlot(ns, size, k, n);
    BlankAt(ns, size, d1, d2, nx, n.pos);
    RoomLen(ns, size, k, n);
  }

  lemma RoomLen(ns: seq<Node>, size: int, k: nat, n: Node)
    requires RoomAt(ns, size, k, n) && size < SEQ_NO_TH
    ensures ns != []
    ensures Wrap(n.lo) == Wrap(n.hi) <==> n.lo == n.hi
    ensures SeqLen(Wrap(n.lo), Wrap(n.hi)) == n.Len()
  {
    WrapDifference(n.lo, n.hi);
    LenExact(n.lo, n.hi);
  }

  lemma NewSlot(ns: seq<Node>, size: int, k: nat, n: Node)
    requires k <= |ns| && RoomAt(ns, size, k, n)
    ensures 0 <= n.pos < size && !Occupied(ns, n.pos)
    ensures forall i :: 0 <= i < |ns| ==> ns[i].pos != n.pos
  {
    hide RoomAt, Chain;
    var ms := Inserted(ns, k, n);
    InsertedChain(ns, size, k, n);
    InsertedFits(ns, size, k, n);
    NodesApart(ms, size, k);
    InRange(ms, size, k);
    forall i | 0 <= i < |ns|
      ensures ns[i].pos != n.pos
    {
      assert ms[if i < k then i else i + 1] == ns[i];
    }
  }

  lemma InRange(ns: seq<Node>, size: int, k: nat)
    requires k < |ns| && Fits(ns, size)
    ensures 0 <= ns[k].pos < size
  {
  }

  /** How the start of the next node compares with the end of this one. */
  lemma StartTests(a: Node, b: Node)
    requires Near(b.lo, a.hi + 1) && Near(a.hi, b.lo)
    ensures SeqCmp(Wrap(b.lo), IncSeq(Wrap(a.hi))) <= 0 <==> b.lo <= a.hi + 1
    ensures Wrap(b.lo) == IncSeq(Wrap(a.hi)) <==> b.lo == a.hi + 1
    ensures SeqCmp(Wrap(a.hi), Wrap(b.lo)) >= 0 <==> a.hi >= b.lo
    ensures a.hi >= b.lo ==> SeqLen(Wrap(b.lo), Wrap(a.hi)) == a.hi - b.lo + 1
  {
    hide Wrap, SeqCmp, SeqLen, IncSeq;
    IncExact(a.hi);
    CmpExact(b.lo, a.hi + 1);
    WrapDifference(b.lo, a.hi + 1);
    CmpExact(a.hi, b.lo);
    if a.hi >= b.lo { LenExact(b.lo, a.hi); }
  }

  /** What the end of the next node says. */
  lemma EndTests(a: Node, b: Node)
    requires Near(b.hi, a.hi) && 0 <= b.hi - b.lo < SEQ_NO_TH
    ensures EndMark(b.lo, b.hi) == -1 <==> b.lo == b.hi
    ensures b.lo < b.hi ==>
              && (SeqCmp(EndMark(b.lo, b.hi), Wrap(a.hi)) > 0 <==> b.hi > a.hi)
              && SeqLen(Wrap(b.lo), EndMark(b.lo, b.hi)) == b.hi - b.lo + 1
  {
    hide Wrap, SeqCmp, SeqLen;
    CmpExact(b.hi, a.hi);
    LenExact(b.lo, b.hi);
  }
}
