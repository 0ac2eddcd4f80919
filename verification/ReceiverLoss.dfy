/**
 CRcvLossList (src/udt/src/list.cpp): the receiver's loss list, a doubly linked interval list in arrays.
 Numbers are appended above the maximum and removed one by one.
 */
module ReceiverLoss {
  import opened Common
  import opened SeqNo
  import opened LossNodes
  import opened LossReport

  /** The backward links: each node's predecessor, -1 at the head. */
  ghost predicate Linked(ns: seq<Node>, size: int, prior: seq<int>) {
    && |prior| == size
    && (forall i :: 0 <= i < |ns| ==> 0 <= ns[i].pos < size)
    && (forall i, j :: 0 <= i < j < |ns| && j == i + 1 ==> prior[ns[j].pos] == ns[i].pos)
    && (ns != [] ==> prior[ns[0].pos] == -1)
  }

  class RcvLossList {
    const size: int
    const data1: array<int>
    const data2: array<int>
    const next: array<int>
    const prior: array<int>
    var head: int
    var tail: int
    var length: int

    ghost var nodes: seq<Node>

    ghost predicate Arrays() {
      && 0 < size < SEQ_NO_TH
      && data1.Length == size && data2.Length == size && next.Length == size && prior.Length == size
      && data1 != data2 && data1 != next && data2 != next && prior != data1 && prior != data2 && prior != next
    }

    ghost predicate Valid()
      reads this, data1, data2, next, prior
    {
      && Arrays()
      && Chain(nodes, -1)
      && Fits(nodes, size)
      && Stored(nodes, size, data1[..], data2[..], next[..])
      && Linked(nodes, size, prior[..])
      && length == Count(nodes)
      && (nodes != [] ==> head == nodes[0].pos && tail == nodes[|nodes| - 1].pos)
      && (nodes == [] ==> head == -1)
    }

    /** The set of missing numbers. */
    ghost function Lost(): set<int>
      reads this
    {
      Elems(nodes)
    }

    constructor (size: int)
      requires 0 < size < SEQ_NO_TH
      ensures Valid() && Lost() == {} && this.size == size
      ensures fresh(data1) && fresh(data2) && fresh(next) && fresh(prior)
    {
      this.size := size;
      data1 := new int[size](_ => -1);
      data2 := new int[size](_ => -1);
      next := new int[size];
      prior := new int[size];
      head, tail, length := -1, -1, 0;
      nodes := [];
    }

    // ----- reading the list -----

    lemma At(k: nat)
      requires Valid() && k < |nodes|
      ensures 0 <= nodes[k].pos < size
      ensures data1[nodes[k].pos] == Wrap(nodes[k].lo)
      ensures data2[nodes[k].pos] == EndMark(nodes[k].lo, nodes[k].hi)
      ensures next[nodes[k].pos] == if k + 1 < |nodes| then nodes[k + 1].pos else -1
      ensures prior[nodes[k].pos] == if k > 0 then nodes[k - 1].pos else -1
      ensures nodes[k].lo <= nodes[k].hi && 0 <= nodes[k].lo - nodes[0].lo && nodes[k].hi - nodes[0].lo < size
    {
      ReadNode(nodes, size, data1[..], data2[..], next[..], k);
      if k > 0 { assert prior[..][nodes[k].pos] == nodes[k - 1].pos; }
      assert prior[..][nodes[0].pos] == -1;
    }

    lemma LengthIsSize()
      requires Valid()
      ensures length == |Lost()|
      ensures length == 0 <==> nodes == []
    {
      CountIsSize(nodes);
      CountPositive(nodes, -1);
    }

    method GetLossLength() returns (n: int)
      requires Valid()
      ensures n == |Lost()|
    {
      LengthIsSize();
      return length;
    }

    method GetFirstLostSeq() returns (seqno: int)
      requires Valid()
      ensures Lost() == {} ==> seqno == -1
      ensures Lost() != {} ==> seqno == Wrap(Least(Lost()))
    {
      LengthIsSize();
      if length == 0 {
        return -1;
      }
      HeadIsLeast(nodes);
      At(0);
      return data1[head];
    }

    // ----- insert -----

    method InsertEmpty(seqno1: int, seqno2: int, ghost lo: int, ghost hi: int)
      requires Valid() && nodes == [] && lo <= hi && hi - lo < size && seqno1 == Wrap(lo) && seqno2 == Wrap(hi)
      modifies this, data1, data2, next, prior
      ensures Valid() && old(Lost()) == {} && Lost() == Span(lo, hi)
    {
      hide Chain, Fits, Stored, Linked, Elems, Count, Wrap, SeqLen, EndMark;
      ghost var d2, n := data2[..], Node(lo, hi, 0);
      WrapLen(lo, hi, size);
      EmptyInsert(size, data1[..], d2, next[..], prior[..], n);
      head := 0;
      tail := 0;
      data1[head] := seqno1;
      if seqno2 != seqno1 {
        data2[head] := seqno2;
      }
      assert data2[..] == d2[0 := EndMark(lo, hi)];
      next[head] := -1;
      prior[head] := -1;
      length := length + SeqLen(seqno1, seqno2);
      nodes := [n];
    }

    method Append(loc: int, seqno1: int, seqno2: int, ghost lo: int, ghost hi: int)
      requires Valid() && nodes != [] && lo <= hi && seqno1 == Wrap(lo) && seqno2 == Wrap(hi)
      requires nodes[|nodes| - 1].hi < lo && hi - nodes[0].lo < size && nodes[0].lo < lo
      requires loc == Move(nodes[0].pos, lo - nodes[0].lo, size) && tail == nodes[|nodes| - 1].pos
      modifies this, data1, data2, next, prior
      ensures Valid() && Lost() == old(Lost()) + Span(lo, hi)
    {
      hide Chain, Fits, Stored, Linked, Elems, Count, Wrap, SeqLen, EndMark, Move;
      ghost var ns, d2, n := nodes, data2[..], Node(lo, hi, loc);
      WrapLen(lo, hi, size);
      AppendNode(ns, size, data1[..], d2, next[..], prior[..], n);
      data1[loc] := seqno1;
      if seqno2 != seqno1 {
        data2[loc] := seqno2;
      }
      assert data2[..] == d2[loc := EndMark(lo, hi)];
      next[tail] := loc;
      prior[loc] := tail;
      next[loc] := -1;
      tail := loc;
      length := length + SeqLen(seqno1, seqno2);
      nodes := ns + [n];
    }

    /** The new interval begins right behind the last one: that one grows. */
    method GrowLast(seqno1: int, seqno2: int, ghost lo: int, ghost hi: int)
      requires Valid() && nodes != [] && lo <= hi && seqno1 == Wrap(lo) && seqno2 == Wrap(hi)
      requires nodes[|nodes| - 1].hi + 1 == lo && hi - nodes[0].lo < size && hi - lo < size
          && tail == nodes[|nodes| - 1].pos
      modifies this, data2
      ensures Valid() && Lost() == old(Lost()) + Span(lo, hi)
    {
      hide Chain, Fits, Stored, Linked, Elems, Count, Wrap, SeqLen;
      GrowTail(nodes, size, data1[..], data2[..], next[..], prior[..], hi);
      WrapLen(lo, hi, size);
      data2[tail] := seqno2;
      length := length + SeqLen(seqno1, seqno2);
      nodes := nodes[|nodes| - 1 := Node(nodes[|nodes| - 1].lo, hi, nodes[|nodes| - 1].pos)];
    }

    /** insert: appends [lo, hi], which lies above everything in the list. */
    method Insert(seqno1: int, seqno2: int, ghost lo: int, ghost hi: int)
      requires Valid() && lo <= hi && seqno1 == Wrap(lo) && seqno2 == Wrap(hi)
      requires hi - lo < size && forall x :: x in Lost() ==> x < lo && hi - x < size
      modifies this, data1, data2, next, prior
      ensures Valid() && Lost() == old(Lost()) + Span(lo, hi)
    {
      hide Chain, Fits, Stored, Linked, Elems, Count, Wrap, SeqOff, SeqLen, IncSeq, Move;
      LengthIsSize();
      if length == 0 {
        InsertEmpty(seqno1, seqno2, lo, hi);
        return;
      }
      OffsetAbove(lo, hi);
      TailIs(lo);
      var offset := SeqOff(data1[head], seqno1);
      var loc := (head + offset) % size;
      if data2[tail] != -1 && IncSeq(data2[tail]) == seqno1 {
        GrowLast(seqno1, seqno2, lo, hi);
      } else {
        Append(loc, seqno1, seqno2, lo, hi);
      }
    }

    lemma OffsetAbove(lo: int, hi: int)
      requires Valid() && nodes != [] && lo <= hi
      requires hi - lo < size && forall x :: x in Lost() ==> x < lo && hi - x < size
      ensures 0 <= head < size
      ensures (head + SeqOff(data1[head], Wrap(lo))) % size == Move(nodes[0].pos, lo - nodes[0].lo, size)
      ensures nodes[|nodes| - 1].hi < lo && hi - nodes[0].lo < size && nodes[0].lo < lo
    {
      hide Chain, Fits, Stored, Linked, Elems, Count, Wrap, SeqOff, Move;
      At(0);
      At(|nodes| - 1);
      NodeHas(nodes, 0, nodes[0].lo);
      NodeHas(nodes, |nodes| - 1, nodes[|nodes| - 1].hi);
      assert nodes[0].lo in Lost() && nodes[|nodes| - 1].hi in Lost();
      OffExact(nodes[0].lo, lo);
      ModIsMove(head, lo - nodes[0].lo, size);
    }

    lemma TailIs(lo: int)
      requires Valid() && nodes != [] && nodes[|nodes| - 1].hi < lo < nodes[0].lo + size
      ensures 0 <= tail < size && tail == nodes[|nodes| - 1].pos
      ensures data2[tail] != -1 && IncSeq(data2[tail]) == Wrap(lo) ==> nodes[|nodes| - 1].hi + 1 == lo
    {
      var m := nodes[|nodes| - 1];
      At(|nodes| - 1);
      IncExact(m.hi);
      WrapDifference(m.hi + 1, lo);
    }

    // ----- remove -----

    /** Node k holds just the one number: it leaves the list. */
    method UnlinkNode(loc: int, ghost k: int)
      requires Valid() && 0 <= k < |nodes| && loc == nodes[k].pos && nodes[k].lo == nodes[k].hi
      modifies this, data1, data2, next, prior
      ensures Valid() && Lost() == old(Lost()) - {old(nodes)[k].lo}
    {
      hide Chain, Fits, Stored, Linked, Elems, Count, Wrap, Occupied, Removed;
      ghost var ns, d1, d2, nx, pr := nodes, data1[..], data2[..], next[..], prior[..];
      At(k);
      UnlinkFacts(ns, size, d1, d2, nx, pr, k);
      if head == loc {
        head := next[head];
        if head != -1 {
          prior[head] := -1;
        }
      } else {
        next[prior[loc]] := next[loc];
        if next[loc] != -1 {
          prior[next[loc]] := prior[loc];
        } else {
          tail := prior[loc];
        }
      }
      data1[loc] := -1;
      length := length - 1;
      nodes := Removed(ns, k);
    }

    /** The first of several numbers of node k leaves: the node moves to the next slot. */
    method RaiseNode(loc: int, ghost k: int)
      requires Valid() && 0 <= k < |nodes| && loc == nodes[k].pos && nodes[k].lo < nodes[k].hi
      modifies this, data1, data2, next, prior
      ensures Valid() && Lost() == old(Lost()) - {old(nodes)[k].lo}
    {
      hide Chain, Fits, Stored, Linked, Elems, Count, Wrap, Occupied, SeqCmp, IncSeq, EndMark, Move;
      ghost var ns, d1, d2, nx, pr := nodes, data1[..], data2[..], next[..], prior[..];
      ghost var n := Node(ns[k].lo + 1, ns[k].hi, Move(ns[0].pos, ns[k].lo + 1 - ns[0].lo, size));
      At(k);
      RaiseFacts(ns, size, d1, d2, nx, k);
      RaiseCells(ns, size, d1, d2, nx, pr, k, n);
      ReplacedEnds(ns, k, n);
      ghost var ms := ns[k := n];
      var i := (loc + 1) % size;
      MoveCell(loc, i);
      RelinkCell(loc, i);
      length := length - 1;
      nodes := ms;
    }

    /** The interval at loc, less its first number, goes to slot i. */
    method MoveCell(loc: int, i: int)
      requires Arrays() && 0 <= loc < size && 0 <= i < size && i != loc && data2[i] == -1
      modifies data1, data2
      ensures data1[..] == old(data1[..])[i := IncSeq(old(data1[loc]))][loc := -1]
      ensures data2[..] ==
          (var end := if SeqCmp(old(data2[loc]), IncSeq(old(data1[loc]))) > 0 then old(data2[loc]) else -1;
           old(data2[..])[i := end][loc := -1])
    {
      data1[i] := IncSeq(data1[loc]);
      if SeqCmp(data2[loc], IncSeq(data1[loc])) > 0 {
        data2[i] := data2[loc];
      }
      data1[loc] := -1;
      data2[loc] := -1;
    }

    /** Slot i takes over the list position of slot loc. */
    method RelinkCell(loc: int, i: int)
      requires Arrays() && 0 <= loc < size && 0 <= i < size && i != loc
      requires head != loc ==> 0 <= prior[loc] < size && prior[loc] != i
      requires tail != loc ==> 0 <= next[loc] < size && next[loc] != i
      modifies this`head, this`tail, next, prior
      ensures head == (if old(head) == loc then i else old(head)) && tail == (if old(tail) == loc then i else old(tail))
      ensures next[..] ==
          (var nx := old(next[..])[i := old(next[loc])]; if old(head) == loc then nx else nx[old(prior[loc]) := i])
      ensures prior[..] ==
          (var pr := old(prior[..])[i := old(prior[loc])]; if old(tail) == loc then pr else pr[old(next[loc]) := i])
    {
      next[i] := next[loc];
      prior[i] := prior[loc];
      if head == loc {
        head := i;
      } else {
        next[prior[i]] := i;
      }
      if tail == loc {
        tail := i;
      } else {
        prior[next[i]] := i;
      }
    }

    /** The last of several numbers of node k leaves. */
    method LowerEnd(i: int, seqno: int, ghost k: int, ghost s: int)
      requires Valid() && 0 <= k < |nodes| && i == nodes[k].pos
      requires nodes[k].lo < s && s == nodes[k].hi && seqno == Wrap(s)
      modifies this, data2
      ensures Valid() && Lost() == old(Lost()) - {s}
    {
      hide Chain, Fits, Stored, Linked, Elems, Count, Wrap, Occupied, IncSeq, DecSeq, EndMark;
      At(k);
      LowerFacts(nodes, size, data1[..], data2[..], next[..], prior[..], k);
      if seqno == IncSeq(data1[i]) {
        data2[i] := -1;
      } else {
        data2[i] := DecSeq(seqno);
      }
      length := length - 1;
      nodes := nodes[k := Node(nodes[k].lo, s - 1, nodes[k].pos)];
    }

    /** A number inside node k leaves: the node is cut in two. */
    method CutNode(i: int, loc: int, seqno: int, ghost k: int, ghost s: int)
      requires Valid() && 0 <= k < |nodes| && i == nodes[k].pos
      requires nodes[k].lo < s < nodes[k].hi && seqno == Wrap(s)
      requires loc == Move(nodes[0].pos, s + 1 - nodes[0].lo, size)
      modifies this, data1, data2, next, prior
      ensures Valid() && Lost() == old(Lost()) - {s}
    {
      hide Chain, Fits, Stored, Linked, Elems, Count, Wrap, Occupied, SeqCmp, IncSeq, DecSeq, EndMark, Inserted, Move;
      ghost var ns, d1, d2, nx, pr := nodes, data1[..], data2[..], next[..], prior[..];
      ghost var a, b := Node(ns[k].lo, s - 1, i), Node(s + 1, ns[k].hi, loc);
      At(k);
      CutFacts(ns, size, d1, d2, nx, k, s);
      CutCells(ns, size, d1, d2, nx, pr, k, s, b);
      CutCell(i, loc, seqno);
      LinkBehind(i, loc);
      length := length - 1;
      nodes := Inserted(ns[k := a], k + 1, b);
    }

    /** The part of the interval at i above seqno goes to slot loc, the part below stays. */
    method CutCell(i: int, loc: int, seqno: int)
      requires Arrays() && 0 <= loc < size && 0 <= i < size && i != loc && data2[loc] == -1
      modifies data1, data2
      ensures data1[..] == old(data1[..])[loc := IncSeq(seqno)]
      ensures data2[..] == old(data2[..])[loc := if SeqCmp(old(data2[i]), IncSeq(seqno)) > 0 then old(data2[i]) else -1]
                                        [i := if seqno == IncSeq(old(data1[i])) then -1 else DecSeq(seqno)]
    {
      data1[loc] := IncSeq(seqno);
      if SeqCmp(data2[i], data1[loc]) > 0 {
        data2[loc] := data2[i];
      }
      if seqno == IncSeq(data1[i]) {
        data2[i] := -1;
      } else {
        data2[i] := DecSeq(seqno);
      }
    }

    /** Slot loc follows slot i in the list. */
    method LinkBehind(i: int, loc: int)
      requires Arrays() && 0 <= loc < size && 0 <= i < size && i != loc
      requires tail != i ==> 0 <= next[i] < size
      modifies this`tail, next, prior
      ensures tail == if old(tail) == i then loc else old(tail)
      ensures next[..] == old(next[..])[loc := old(next[i])][i := loc]
      ensures prior[..] == (var pr := old(prior[..])[loc := i]; if old(tail) == i then pr else pr[old(next[i]) := loc])
    {
      next[loc] := next[i];
      next[i] := loc;
      prior[loc] := i;
      if tail == i {
        tail := loc;
      } else {
        prior[next[loc]] := loc;
      }
    }

    /** Close enough to everything in the list to be compared with it. */
    ghost predicate Comparable(s: int)
      reads this
    {
      forall i :: 0 <= i < |nodes| ==> Near(s, nodes[i].lo) && Near(s, nodes[i].hi)
    }

    lemma ComparableNow(s: int)
      requires Valid() && forall x :: x in Lost() ==> Near(s, x)
      ensures Comparable(s)
      ensures nodes != [] ==> Near(s, nodes[0].lo) && 0 <= head < size && data1[head] == Wrap(nodes[0].lo)
      ensures nodes != [] && s < nodes[0].lo ==> s !in Lost()
    {
      forall i | 0 <= i < |nodes|
        ensures Near(s, nodes[i].lo) && Near(s, nodes[i].hi)
      {
        NodeHas(nodes, i, nodes[i].lo);
        NodeHas(nodes, i, nodes[i].hi);
        assert nodes[i].lo in Lost() && nodes[i].hi in Lost();
      }
      if nodes != [] {
        HeadIsLeast(nodes);
        At(0);
      }
    }

    lemma FilledSlot(p: int)
      requires Valid() && 0 <= p < size
      ensures data1[p] != -1 <==> Occupied(nodes, p)
    {
      if Occupied(nodes, p) {
        var k :| 0 <= k < |nodes| && nodes[k].pos == p;
        At(k);
      } else {
        BlankAt(nodes, size, data1[..], data2[..], next[..], p);
      }
    }

    /** A slot shows seqno exactly when the node there starts with it. */
    lemma StartsHere(s: int, loc: int)
      requires Valid() && Comparable(s) && 0 <= loc < size
      ensures data1[loc] == Wrap(s) ==> exists k :: 0 <= k < |nodes| && nodes[k].lo == s && nodes[k].pos == loc
    {
      if data1[loc] == Wrap(s) {
        FilledSlot(loc);
        var k :| 0 <= k < |nodes| && nodes[k].pos == loc;
        At(k);
        WrapDifference(s, nodes[k].lo);
      }
    }

    /** The nearest filled slot before loc holds the last node that starts below s, or s is beyond the list. */
    method ScanBack(loc: int, ghost s: int) returns (i: int, ghost k: int)
      requires Valid() && nodes != [] && Comparable(s) && nodes[0].lo < s
      requires loc == (head + (s - nodes[0].lo)) % size && 0 <= loc < size && data1[loc] != Wrap(s)
      ensures 0 <= k < |nodes| && i == nodes[k].pos && nodes[k].lo < s
      ensures s in Lost() <==> s <= nodes[k].hi
    {
      hide Chain, Fits, Stored, Linked, Elems, Count, Wrap, Occupied, Move, Comparable;
      At(0);
      ghost var d := ScanStart(loc, s);
      i := (loc - 1 + size) % size;
      FilledSlot(i);
      while data1[i] == -1
        invariant 0 <= d < size && i == Move(nodes[0].pos, d, size) && 0 <= i < size
        invariant data1[i] != -1 <==> Occupied(nodes, i)
        invariant s - nodes[0].lo < size ==>
            d < s - nodes[0].lo && forall j :: 0 <= j < |nodes| && nodes[j].lo <= s ==> nodes[j].lo <= nodes[0].lo + d
        decreases d
      {
        EmptySlot(nodes, size, i, d);
        d := d - 1;
        i := (i - 1 + size) % size;
        FilledSlot(i);
      }
      k := ScanEnd(nodes, size, i, d, s);
    }

    lemma ScanStart(loc: int, s: int) returns (d: int)
      requires Valid() && nodes != [] && Comparable(s) && nodes[0].lo < s
      requires loc == (head + (s - nodes[0].lo)) % size && 0 <= loc < size && data1[loc] != Wrap(s)
      ensures 0 <= d < size && 0 <= (loc - 1 + size) % size < size
      ensures (loc - 1 + size) % size == Move(nodes[0].pos, d, size)
      ensures s - nodes[0].lo < size ==> d < s - nodes[0].lo && forall j :: 0 <= j < |nodes| && nodes[j].lo <= s ==>
          nodes[j].lo <= nodes[0].lo + d
    {
      hide Chain, Fits, Stored, Linked, Elems, Count, Wrap, Move, Comparable;
      At(0);
      if s - nodes[0].lo < size {
        d := s - nodes[0].lo - 1;
        BackFrom(head, s - nodes[0].lo, size);
        StartsBelow(s);
      } else {
        BackInRange(loc, size);
        d := DistanceOf(head, (loc - 1 + size) % size, size);
      }
    }

    lemma StartsBelow(s: int)
      requires Valid() && nodes != [] && nodes[0].lo < s && s - nodes[0].lo < size
      requires data1[Move(nodes[0].pos, s - nodes[0].lo, size)] != Wrap(s)
      ensures forall j :: 0 <= j < |nodes| && nodes[j].lo <= s ==> nodes[j].lo <= s - 1
    {
      hide Chain, Stored, Linked, Count, Elems, Wrap, Move;
      forall j | 0 <= j < |nodes| && nodes[j].lo <= s
        ensures nodes[j].lo <= s - 1
      {
        At(j);
        SlotFollows(nodes, size, j);
      }
    }

    /** The number starts node k. */
    method RemoveStart(loc: int, ghost k: int)
      requires Valid() && 0 <= k < |nodes| && nodes[k].pos == loc
      modifies this, data1, data2, next, prior
      ensures Valid() && Lost() == old(Lost()) - {old(nodes)[k].lo} && old(nodes)[k].lo in old(Lost())
    {
      hide Chain, Fits, Stored, Linked, Elems, Count, Wrap, Occupied;
      At(k);
      EndMarkIs(nodes[k].lo, nodes[k].hi);
      NodeHas(nodes, k, nodes[k].lo);
      if data2[loc] == -1 {
        UnlinkNode(loc, k);
      } else {
        RaiseNode(loc, k);
      }
    }

    /** The number does not start node k, the last one that starts below it. */
    method RemoveInside(i: int, loc: int, seqno: int, ghost k: int, ghost s: int) returns (found: bool)
      requires Valid() && 0 <= k < |nodes| && nodes[k].pos == i && nodes[k].lo < s && seqno == Wrap(s) && Comparable(s)
      requires s in Lost() <==> s <= nodes[k].hi
      requires loc == (head + (s - nodes[0].lo)) % size
      modifies this, data1, data2, next, prior
      ensures Valid() && Lost() == old(Lost()) - {s} && (found <==> s in old(Lost()))
    {
      hide Chain, Fits, Stored, Linked, Elems, Count, Wrap, SeqCmp, Occupied, Move, Comparable;
      At(k);
      EndCompares(k, s);
      if data2[i] == -1 || SeqCmp(seqno, data2[i]) > 0 {
        return false;
      }
      if seqno == data2[i] {
        LowerEnd(i, seqno, k, s);
      } else {
        At(0);
        CutSlot(head, s - nodes[0].lo, nodes[k].hi - nodes[0].lo, size);
        CutNode(i, (loc + 1) % size, seqno, k, s);
      }
      return true;
    }

    /** remove: takes one number out of the list, and says whether it was there. */
    method Remove(seqno: int, ghost s: int) returns (found: bool)
      requires Valid() && seqno == Wrap(s)
      requires forall x :: x in Lost() ==> Near(s, x)
      modifies this, data1, data2, next, prior
      ensures Valid() && Lost() == old(Lost()) - {s} && (found <==> s in old(Lost()))
    {
      hide Chain, Fits, Stored, Linked, Elems, Count, Wrap, SeqOff, SeqCmp, Occupied, Move, Comparable;
      LengthIsSize();
      ComparableNow(s);
      if length == 0 {
        assert Lost() == {};
        return false;
      }
      OffExact(nodes[0].lo, s);
      var offset := SeqOff(data1[head], seqno);
      if offset < 0 {
        return false;
      }
      InRing(head + offset, size);
      var loc := (head + offset) % size;
      StartsHere(s, loc);
      if seqno == data1[loc] {
        ghost var k :| 0 <= k < |nodes| && nodes[k].lo == s && nodes[k].pos == loc;
        RemoveStart(loc, k);
        return true;
      }
      HeadElsewhere(s, loc);
      var i;
      ghost var k;
      i, k := ScanBack(loc, s);
      found := RemoveInside(i, loc, seqno, k, s);
    }

    lemma HeadElsewhere(s: int, loc: int)
      requires Valid() && nodes != [] && nodes[0].lo <= s && Near(s, nodes[0].lo)
      requires loc == (head + (s - nodes[0].lo)) % size && data1[loc] != Wrap(s)
      ensures nodes[0].lo < s
    {
      At(0);
      hide RcvLossList.Valid, Wrap;
      AtHead(head, s - nodes[0].lo, size, loc);
    }

    lemma EndCompares(k: nat, s: int)
      requires Valid() && k < |nodes| && Comparable(s) && nodes[k].lo < s
      ensures 0 <= nodes[k].pos < size && nodes[0].lo <= nodes[k].lo
      ensures var d := data2[nodes[k].pos];
              && (d == -1 || SeqCmp(Wrap(s), d) > 0 <==> s > nodes[k].hi)
              && (s <= nodes[k].hi ==> (Wrap(s) == d <==> s == nodes[k].hi))
    {
      At(k);
      EndMarkIs(nodes[k].lo, nodes[k].hi);
      CmpExact(s, nodes[k].hi);
      WrapDifference(s, nodes[k].hi);
    }

    // ----- remove a range -----

    /**
     remove(seqno1, seqno2): one number after the other. When the range passes the end of the circle the
     loop stops short of MAX_SEQ_NO, so that number stays.
     */
    method RemoveRange(seqno1: int, seqno2: int, ghost lo: int, ghost hi: int)
      requires Valid() && seqno1 == Wrap(lo) && seqno2 == Wrap(hi) && lo <= hi < lo + CIRCLE
      requires forall x :: x in Lost() ==> Near(lo, x) && Near(hi, x)
      requires seqno1 <= seqno2 ==> seqno2 < MAX_SEQ_NO
      modifies this, data1, data2, next, prior
      ensures Valid()
      ensures forall x :: x in Lost() <==>
                x in old(Lost()) && !(lo <= x <= hi && !(seqno2 < seqno1 && Wrap(x) == MAX_SEQ_NO))
    {
      hide Valid, Lost, Wrap;
      WrapOrder(lo, hi);
      if seqno1 <= seqno2 {
        RemoveRun(seqno1, seqno2 + 1, lo);
      } else {
        RemoveWrapped(seqno1, seqno2, lo, hi);
      }
    }

    method RemoveWrapped(seqno1: int, seqno2: int, ghost lo: int, ghost hi: int)
      requires Valid() && seqno1 == Wrap(lo) && seqno2 == Wrap(hi) && lo <= hi < lo + CIRCLE && seqno2 < seqno1
      requires forall x :: x in Lost() ==> Near(lo, x) && Near(hi, x)
      modifies this, data1, data2, next, prior
      ensures Valid()
      ensures forall x :: x in Lost() <==> x in old(Lost()) && !(lo <= x <= hi && Wrap(x) != MAX_SEQ_NO)
    {
      hide Valid, Lost, Wrap;
      WrapOrder(lo, hi);
      WrapAtEnd(lo, hi);
      RemoveRun(seqno1, MAX_SEQ_NO, lo);
      RemoveRun(0, seqno2 + 1, hi - seqno2);
    }

    /** for (i = first; i < last; ++i) remove(i). */
    method RemoveRun(first: int, last: int, ghost lo: int)
      requires Valid() && first == Wrap(lo) && first <= last <= MAX_SEQ_NO
      requires first < last ==> forall x :: x in Lost() ==> Near(lo, x) && Near(lo + (last - first) - 1, x)
      modifies this, data1, data2, next, prior
      ensures Valid() && Lost() == old(Lost()) - Span(lo, lo + (last - first) - 1)
    {
      hide Valid, Lost, Wrap, Span;
      var i := first;
      ghost var lost, s := Lost(), lo;
      EmptySpan(lo);
      while i < last
        invariant first <= i <= last && s == lo + (i - first) && Valid()
        invariant Lost() == lost - Span(lo, s - 1)
      {
        WrapStep(lo, i - first);
        LongerSpan(lo, s);
        var _ := Remove(i, s);
        i := i + 1;
        s := s + 1;
      }
    }

    // ----- find and report -----

    /** find: whether some number from seqno1 to seqno2 is in the list. */
    method Find(seqno1: int, seqno2: int, ghost lo: int, ghost hi: int) returns (found: bool)
      requires Valid() && seqno1 == Wrap(lo) && seqno2 == Wrap(hi) && lo <= hi
      requires forall x :: x in Lost() ==> Near(x, lo) && Near(x, hi)
      ensures found <==> exists x :: x in Lost() && lo <= x <= hi
    {
      hide Chain, Fits, Stored, Linked, Elems, Count, Wrap, SeqCmp;
      LengthIsSize();
      if length == 0 {
        assert Lost() == {};
        return false;
      }
      var p := head;
      ghost var k := 0;
      SlotsExist(nodes, size);
      while p != -1
        invariant 0 <= k <= |nodes| && p == (if k < |nodes| then nodes[k].pos else -1)
        invariant forall i :: 0 <= i < k ==> nodes[i].hi < lo || hi < nodes[i].lo
        decreases |nodes| - k
      {
        At(k);
        FindCompares(k, lo, hi);
        if SeqCmp(data1[p], seqno1) == 0
           || (SeqCmp(data1[p], seqno1) > 0 && SeqCmp(data1[p], seqno2) <= 0)
           || (SeqCmp(data1[p], seqno1) < 0 && data2[p] != -1 && SeqCmp(data2[p], seqno1) >= 0) {
          ghost var x := Max(lo, nodes[k].lo);
          NodeHas(nodes, k, x);
          assert x in Lost() && lo <= x <= hi;
          return true;
        }
        p := next[p];
        k := k + 1;
      }
      NoneWithin(lo, hi);
      return false;
    }

    lemma FindCompares(k: nat, lo: int, hi: int)
      requires Valid() && k < |nodes| && lo <= hi
      requires forall x :: x in Lost() ==> Near(x, lo) && Near(x, hi)
      ensures 0 <= nodes[k].pos < size
      ensures var p := nodes[k].pos;
              (SeqCmp(data1[p], Wrap(lo)) == 0
               || (SeqCmp(data1[p], Wrap(lo)) > 0 && SeqCmp(data1[p], Wrap(hi)) <= 0)
               || (SeqCmp(data1[p], Wrap(lo)) < 0 && data2[p] != -1 && SeqCmp(data2[p], Wrap(lo)) >= 0))
              <==> nodes[k].lo <= hi && lo <= nodes[k].hi
    {
      At(k);
      NodeHas(nodes, k, nodes[k].lo);
      NodeHas(nodes, k, nodes[k].hi);
      assert nodes[k].lo in Lost() && nodes[k].hi in Lost();
      EndMarkIs(nodes[k].lo, nodes[k].hi);
      hide Chain, Fits, Stored, Linked, Elems, Count, Wrap, SeqCmp;
      CmpExact(nodes[k].lo, lo);
      CmpExact(nodes[k].lo, hi);
      CmpExact(nodes[k].hi, lo);
    }

    lemma NoneWithin(lo: int, hi: int)
      requires forall i :: 0 <= i < |nodes| ==> nodes[i].hi < lo || hi < nodes[i].lo
      ensures !exists x :: x in Lost() && lo <= x <= hi
    {
      forall x | x in Lost()
        ensures !(lo <= x <= hi)
      {
        var k := HolderOf(nodes, x);
      }
    }

    /** The list as the intervals of a loss report. */
    ghost function Ranges(): (rs: seq<Range>)
      reads this
      ensures |rs| == |nodes| && forall i :: 0 <= i < |rs| ==> rs[i] == Range(nodes[i].lo, nodes[i].hi)
    {
      seq(|nodes|, i requires 0 <= i < |nodes| reads this => Range(nodes[i].lo, nodes[i].hi))
    }

    lemma RangesCover()
      ensures Covered(Ranges()) == Lost()
    {
      RangesCoverNodes(nodes, Ranges());
    }

    /** The words of node m. */
    method WriteNode(words: array<int>, len: nat, i: int, ghost m: nat) returns (len': nat)
      requires Valid() && m < |nodes| && i == nodes[m].pos && len + 1 < words.Length
      requires words != data1 && words != data2 && words != next && words != prior
      modifies words
      ensures len < len' <= len + 2
      ensures words[..len'] == old(words[..len]) + EncodeRange(Range(nodes[m].lo, nodes[m].hi))
      ensures words[len'..] == old(words[len'..])
    {
      hide Chain, Fits, Stored, Linked, Elems, Count, Wrap, EndMark, EncodeRange;
      At(m);
      ReportNode(nodes[m].lo, nodes[m].hi);
      SlotsExist(nodes, size);
      len' := len;
      if data2[i] != -1 {
        words[len'] := data1[i] + CIRCLE;
        len' := len' + 1;
        words[len'] := data2[i];
      } else {
        words[len'] := data1[i];
      }
      len' := len' + 1;
    }

    /**
     getLossArray: writes as many whole intervals as fit, from the smallest on, and never past the limit.
     It stops early only when the words written reach limit - 1.
     */
    method GetLossArray(words: array<int>, limit: int) returns (len: int, ghost m: int)
      requires Valid() && 0 <= limit <= words.Length
      requires words != data1 && words != data2 && words != next && words != prior
      modifies words
      ensures Valid() && Lost() == old(Lost())
      ensures 0 <= len <= limit && 0 <= m <= |Ranges()|
      ensures words[..len] == Encode(Ranges()[..m]) && words[len..] == old(words[len..])
      ensures m == |Ranges()| || len >= limit - 1
    {
      hide Chain, Fits, Stored, Linked, Elems, Count, Wrap, Encode, EncodeRange, EndMark;
      len := 0;
      m := 0;
      var i := head;
      ghost var rs := Ranges();
      EncodeNone(rs);
      SlotsExist(nodes, size);
      while len < limit - 1 && i != -1
        invariant 0 <= m <= |nodes| && i == (if m < |nodes| then nodes[m].pos else -1)
        invariant 0 <= len <= limit || (len == 0 && limit < 0)
        invariant words[..len] == Encode(rs[..m]) && words[len..] == old(words[len..])
        invariant Valid() && rs == Ranges()
        decreases |nodes| - m
      {
        At(m);
        EncodeNext(rs, m);
        len := WriteNode(words, len, i, m);
        i := next[i];
        m := m + 1;
      }
    }
  }

  /** All that taking a whole node out needs to know. */
  lemma UnlinkFacts(ns: seq<Node>, size: int, d1: seq<int>, d2: seq<int>, nx: seq<int>, pr: seq<int>, k: nat)
    requires k < |ns| && Chain(ns, -1) && Fits(ns, size) && Stored(ns, size, d1, d2, nx) && Linked(ns, size, pr)
    requires ns[k].lo == ns[k].hi
    ensures var n, ms := ns[k], Removed(ns, k);
            && 0 <= n.pos < size && d2[n.pos] == -1
            && Chain(ms, -1) && Fits(ms, size) && Elems(ms) == Elems(ns) - {n.lo} && Count(ms) == Count(ns) - 1
            && |ms| == |ns| - 1
            && (k > 0 ==>
                  0 <= ns[k - 1].pos < size && ns[0].pos != n.pos && ms[0].pos == ns[0].pos && ns[k - 1].pos != n.pos)
            && (k + 1 < |ns| ==>
                0 <= ns[k + 1].pos < size && ns[k + 1].pos != n.pos && ms[|ms| - 1].pos == ns[|ns| - 1].pos)
            && (k == 0 && |ns| > 1 ==> ms[0].pos == ns[1].pos)
            && (k > 0 && k + 1 == |ns| ==> ms[|ms| - 1].pos == ns[k - 1].pos)
            && Stored(ms, size, d1[n.pos := -1], d2, if k > 0 then nx[ns[k - 1].pos := nx[n.pos]] else nx)
            && Linked(ms, size, if k + 1 < |ns| then pr[ns[k + 1].pos := pr[n.pos]] else pr)
  {
    hide Chain, Fits, Elems, Count, Occupied, Wrap;
    InChain(ns, k);
    WithoutSums(ns, size, k, ns[k].lo);
    WithoutShape(ns, size, k, ns[k].lo);
    NodesApart(ns, size, -1);
    UnlinkStored(ns, size, d1, d2, nx, k);
    UnlinkLinked(ns, size, pr, k);
    assert d2[ns[k].pos := -1] == d2;
  }

  lemma LowerFacts(ns: seq<Node>, size: int, d1: seq<int>, d2: seq<int>, nx: seq<int>, pr: seq<int>, k: nat)
    requires k < |ns| && Chain(ns, -1) && Fits(ns, size) && Stored(ns, size, d1, d2, nx) && Linked(ns, size, pr)
    requires ns[k].lo < ns[k].hi && size < SEQ_NO_TH
    ensures var n, s := ns[k], ns[k].hi;
            var ms := ns[k := Node(n.lo, s - 1, n.pos)];
            && 0 <= n.pos < size && ms[0].pos == ns[0].pos && ms[|ms| - 1].pos == ns[|ns| - 1].pos
            && EndMark(n.lo, s - 1) == (if Wrap(s) == IncSeq(Wrap(n.lo)) then -1 else DecSeq(Wrap(s)))
            && Chain(ms, -1) && Fits(ms, size) && Elems(ms) == Elems(ns) - {s} && Count(ms) == Count(ns) - 1
            && Stored(ms, size, d1, d2[n.pos := EndMark(n.lo, s - 1)], nx) && Linked(ms, size, pr)
  {
    hide Chain, Fits, Elems, Count, Stored, EndMark, IncSeq, DecSeq, Wrap;
    WithoutSums(ns, size, k, ns[k].hi);
    WithoutShape(ns, size, k, ns[k].hi);
    NodesApart(ns, size, -1);
    StoreShorten(ns, size, d1, d2, nx, k, ns[k].hi - 1);
    EndNumbers(ns, size, k, ns[k].hi);
  }

  lemma EndNumbers(ns: seq<Node>, size: int, k: nat, s: int)
    requires k < |ns| && Fits(ns, size) && ns[k].lo < s <= ns[k].hi && size < SEQ_NO_TH
    ensures EndMark(ns[k].lo, s - 1) == if Wrap(s) == IncSeq(Wrap(ns[k].lo)) then -1 else DecSeq(Wrap(s))
    ensures IncSeq(Wrap(s)) == Wrap(s + 1)
    ensures s < ns[k].hi ==>
              EndMark(s + 1, ns[k].hi) == if SeqCmp(Wrap(ns[k].hi), Wrap(s + 1)) > 0 then Wrap(ns[k].hi) else -1
    ensures EndMark(ns[k].lo, ns[k].hi) == Wrap(ns[k].hi)
  {
    IncExact(ns[k].lo);
    IncExact(s);
    WrapDifference(s, ns[k].lo + 1);
    CmpExact(ns[k].hi, s + 1);
  }

  /** All that cutting a number out of the middle of a node needs to know. */
  lemma CutFacts(ns: seq<Node>, size: int, d1: seq<int>, d2: seq<int>, nx: seq<int>, k: nat, s: int)
    requires k < |ns| && Chain(ns, -1) && Fits(ns, size) && Stored(ns, size, d1, d2, nx)
    requires ns[k].lo < s < ns[k].hi && size < SEQ_NO_TH
    ensures var loc := Move(ns[0].pos, s + 1 - ns[0].lo, size);
            var a, b := Node(ns[k].lo, s - 1, ns[k].pos), Node(s + 1, ns[k].hi, loc);
            var ms := Inserted(ns[k := a], k + 1, b);
            && 0 <= loc < size && !Occupied(ns, loc) && Apart(ns)
            && Chain(ms, -1) && Fits(ms, size) && Elems(ms) == Elems(ns) - {s} && Count(ms) == Count(ns) - 1
            && IncSeq(Wrap(s)) == Wrap(s + 1)
            && EndMark(b.lo, b.hi) == (if SeqCmp(Wrap(ns[k].hi), Wrap(s + 1)) > 0 then Wrap(ns[k].hi) else -1)
            && EndMark(a.lo, a.hi) == (if Wrap(s) == IncSeq(Wrap(a.lo)) then -1 else DecSeq(Wrap(s)))
            && EndMark(ns[k].lo, ns[k].hi) == Wrap(ns[k].hi)
  {
    hide Chain, Fits, Elems, Count, Stored, EndMark, IncSeq, DecSeq, Wrap, SeqCmp, Occupied, Inserted, Move;
    WithoutSums(ns, size, k, s);
    WithoutShape(ns, size, k, s);
    NodesApart(ns, size, -1);
    InsideFree(ns, size, k, s);
    EndNumbers(ns, size, k, s);
  }

  /** The arrays after node k has been cut. */
  lemma CutCells(ns: seq<Node>, size: int, d1: seq<int>, d2: seq<int>, nx: seq<int>, pr: seq<int>, k: nat, s: int,
      b: Node)
    requires k < |ns| && Stored(ns, size, d1, d2, nx) && Linked(ns, size, pr) && Apart(ns) && ns[k].lo < s < ns[k].hi
    requires 0 <= b.pos < size && !Occupied(ns, b.pos)
    ensures |d1| == |d2| == |nx| == |pr| == size && 0 <= ns[k].pos < size && ns[k].pos != b.pos && d2[b.pos] == -1
    ensures k + 1 < |ns| ==> 0 <= ns[k + 1].pos < size && ns[|ns| - 1].pos != ns[k].pos
    ensures var a := Node(ns[k].lo, s - 1, ns[k].pos);
            var ms := Inserted(ns[k := a], k + 1, b);
            && |ms| == |ns| + 1 && ms[0].pos == ns[0].pos
            && ms[|ms| - 1].pos == (if k + 1 < |ns| then ns[|ns| - 1].pos else b.pos)
            && Stored(ms, size, d1[b.pos := Wrap(b.lo)], d2[b.pos := EndMark(b.lo, b.hi)][a.pos := EndMark(a.lo, a.hi)],
                      nx[b.pos := nx[a.pos]][a.pos := b.pos])
            && Linked(ms, size, if k + 1 < |ns| then pr[b.pos := a.pos][ns[k + 1].pos := b.pos] else pr[b.pos := a.pos])
  {
    hide Occupied, Wrap, EndMark, Inserted;
    var a := Node(ns[k].lo, s - 1, ns[k].pos);
    BlankAt(ns, size, d1, d2, nx, b.pos);
    CutStored(ns, size, d1, d2, nx, k, s, b);
    CutLinked(ns, size, pr, k, a, b);
    InsertedAt(ns[k := a], k + 1, b);
  }

  lemma BackFrom(h: int, d: int, size: int)
    requires 0 <= h < size && 0 < d < size
    ensures (h + d) % size == Move(h, d, size)
    ensures ((h + d) % size - 1 + size) % size == Move(h, d - 1, size)
    ensures 0 <= Move(h, d - 1, size) < size
  {
    ModIsMove(h, d, size);
    BackSlot(h, d, size);
  }

  lemma BackInRange(p: int, size: int)
    requires 0 <= p < size
    ensures 0 <= (p - 1 + size) % size < size
  {
  }

  lemma BackSlot(h: int, d: int, size: int)
    requires 0 <= h < size && 0 < d < size
    ensures (Move(h, d, size) - 1 + size) % size == Move(h, d - 1, size)
  {
    ModIsMove(Move(h, d, size), -1, size);
    MoveBetween(h, d, d - 1, size);
  }

  lemma DistanceOf(h: int, p: int, size: int) returns (d: int)
    requires 0 <= h < size && 0 <= p < size
    ensures 0 <= d < size && p == Move(h, d, size)
  {
    d := if p >= h then p - h else p - h + size;
  }

  lemma EmptySlot(ns: seq<Node>, size: int, i: int, d: int)
    requires ns != [] && Fits(ns, size) && 0 <= d < size && i == Move(ns[0].pos, d, size) && !Occupied(ns, i)
    ensures d > 0 && 0 <= (i - 1 + size) % size < size && (i - 1 + size) % size == Move(ns[0].pos, d - 1, size)
    ensures forall j :: 0 <= j < |ns| ==> ns[j].lo != ns[0].lo + d
  {
    assert ns[0].pos == Move(ns[0].pos, 0, size);
    BackSlot(ns[0].pos, d, size);
    ModIsMove(i, -1, size);
    forall j | 0 <= j < |ns|
      ensures ns[j].lo != ns[0].lo + d
    {
      assert ns[j].pos == Move(ns[0].pos, ns[j].lo - ns[0].lo, size);
    }
  }

  /** The node found by the scan is the only one that can hold s. */
  lemma ScanEnd(ns: seq<Node>, size: int, i: int, d: int, s: int) returns (k: int)
    requires ns != [] && Chain(ns, -1) && Fits(ns, size) && 0 <= d < size && i == Move(ns[0].pos, d, size)
        && Occupied(ns, i)
    requires ns[0].lo < s
    requires s - ns[0].lo < size ==> d < s - ns[0].lo && forall j :: 0 <= j < |ns| && ns[j].lo <= s ==>
        ns[j].lo <= ns[0].lo + d
    ensures 0 <= k < |ns| && i == ns[k].pos && ns[k].lo < s
    ensures s in Elems(ns) <==> s <= ns[k].hi
  {
    k :| 0 <= k < |ns| && ns[k].pos == i;
    if ns[k].lo - ns[0].lo < d {
      SlotsDiffer(ns[0].pos, ns[k].lo - ns[0].lo, d, size);
    } else if d < ns[k].lo - ns[0].lo {
      SlotsDiffer(ns[0].pos, d, ns[k].lo - ns[0].lo, size);
    }
    if s <= ns[k].hi { NodeHas(ns, k, s); }
    if s in Elems(ns) {
      var m := HolderOf(ns, s);
      assert ns[m].lo <= ns[k].lo;
      assert m == k;
    }
  }

  /** Every element lies in some node. */
  lemma {:induction false} HolderOf(ns: seq<Node>, s: int) returns (k: int)
    requires s in Elems(ns)
    ensures 0 <= k < |ns| && ns[k].lo <= s <= ns[k].hi
    decreases |ns|
  {
    if s in Span(ns[|ns| - 1].lo, ns[|ns| - 1].hi) {
      k := |ns| - 1;
    } else {
      k := HolderOf(ns[..|ns| - 1], s);
    }
  }

  lemma InRing(x: int, size: int)
    requires 0 < size
    ensures 0 <= x % size < size
  {
  }

  lemma InPlace(p: int, size: int)
    requires 0 <= p < size
    ensures (p + 0) % size == p
  {
    ModSmall(p, size);
  }

  lemma CutSlot(h: int, d: int, e: int, size: int)
    requires 0 <= h < size && 0 <= d < e < size
    ensures ((h + d) % size + 1) % size == Move(h, d + 1, size)
  {
    ModIsMove(h, d, size);
    ModIsMove(Move(h, d, size), 1, size);
  }

  lemma WrapOrder(lo: int, hi: int)
    requires lo <= hi < lo + CIRCLE
    ensures Wrap(lo) <= Wrap(hi) ==> hi - lo == Wrap(hi) - Wrap(lo)
    ensures Wrap(hi) < Wrap(lo) ==> hi - lo == Wrap(hi) - Wrap(lo) + CIRCLE
    ensures Wrap(hi) < Wrap(lo) ==> Wrap(hi - Wrap(hi)) == 0
  {
    WrapDifference(lo, hi);
    WrapStep(hi, -Wrap(hi));
  }

  lemma EmptySpan(lo: int)
    ensures Span(lo, lo - 1) == {}
  {
  }

  lemma LongerSpan(lo: int, s: int)
    requires lo <= s
    ensures Span(lo, s) == Span(lo, s - 1) + {s}
  {
  }

  lemma WrapStep(n: int, d: int)
    requires 0 <= Wrap(n) + d <= MAX_SEQ_NO
    ensures Wrap(n + d) == Wrap(n) + d
  {
    WrapUnique(n + d, Wrap(n) + d, n / CIRCLE);
  }

  /** In a range that passes the end of the circle, just one number is the last of the circle. */
  lemma WrapAtEnd(lo: int, hi: int)
    requires lo <= hi < lo + CIRCLE && Wrap(hi) < Wrap(lo)
    ensures forall x :: lo <= x <= hi ==> (Wrap(x) == MAX_SEQ_NO <==> x == hi - Wrap(hi) - 1)
  {
    var e := hi - Wrap(hi) - 1;
    WrapOrder(lo, hi);
    WrapDifference(e, e + 1);
    forall x | lo <= x <= hi
      ensures Wrap(x) == MAX_SEQ_NO <==> x == e
    {
      WrapDifference(x, e);
    }
  }

  lemma {:induction false} RangesCoverNodes(ns: seq<Node>, rs: seq<Range>)
    requires |rs| == |ns| && forall i :: 0 <= i < |rs| ==> rs[i] == Range(ns[i].lo, ns[i].hi)
    ensures Covered(rs) == Elems(ns)
    decreases |ns|
  {
    if ns != [] {
      RangesCoverNodes(ns[..|ns| - 1], rs[..|rs| - 1]);
    }
  }

  lemma SlotFollows(ns: seq<Node>, size: int, j: nat)
    requires j < |ns| && Fits(ns, size)
    ensures ns[j].pos == Move(ns[0].pos, ns[j].lo - ns[0].lo, size)
  {
  }

  lemma SlotsExist(ns: seq<Node>, size: int)
    requires Fits(ns, size)
    ensures forall i :: 0 <= i < |ns| ==> 0 <= ns[i].pos < size
  {
  }

  lemma EncodeNone(rs: seq<Range>)
    ensures Encode(rs[..0]) == []
  {
  }

  lemma EncodeNext(rs: seq<Range>, m: nat)
    requires m < |rs|
    ensures Encode(rs[..m + 1]) == Encode(rs[..m]) + EncodeRange(rs[m])
  {
    assert rs[..m + 1][..m] == rs[..m];
  }

  lemma ReportNode(lo: int, hi: int)
    ensures EndMark(lo, hi) == -1 ==> EncodeRange(Range(lo, hi)) == [Wrap(lo)]
    ensures EndMark(lo, hi) != -1 ==> EncodeRange(Range(lo, hi)) == [Wrap(lo) + CIRCLE, EndMark(lo, hi)]
  {
  }

  lemma InChain(ns: seq<Node>, k: nat)
    requires k < |ns| && Chain(ns, -1)
    ensures ns[k].lo <= ns[k].hi
  {
  }

  /** All that moving a node up by one needs to know. */
  lemma RaiseFacts(ns: seq<Node>, size: int, d1: seq<int>, d2: seq<int>, nx: seq<int>, k: nat)
    requires k < |ns| && Chain(ns, -1) && Fits(ns, size) && Stored(ns, size, d1, d2, nx)
    requires ns[k].lo < ns[k].hi && size < SEQ_NO_TH
    ensures var o := ns[k];
            var n := Node(o.lo + 1, o.hi, Move(ns[0].pos, o.lo + 1 - ns[0].lo, size));
            var ms := ns[k := n];
            && 0 <= o.pos < size && (o.pos + 1) % size == n.pos && 0 <= n.pos < size && !Occupied(ns, n.pos)
            && IncSeq(Wrap(o.lo)) == Wrap(n.lo)
            && EndMark(o.lo, o.hi) == Wrap(o.hi)
            && EndMark(n.lo, n.hi) == (if SeqCmp(Wrap(o.hi), Wrap(n.lo)) > 0 then Wrap(o.hi) else -1)
            && Chain(ms, -1) && Fits(ms, size) && Elems(ms) == Elems(ns) - {o.lo} && Count(ms) == Count(ns) - 1
            && Apart(ns)
  {
    hide Chain, Fits, Elems, Count, Occupied, Wrap, SeqCmp, IncSeq, EndMark, Stored, Move;
    WithoutSums(ns, size, k, ns[k].lo);
    WithoutShape(ns, size, k, ns[k].lo);
    NodesApart(ns, size, -1);
    InsideFree(ns, size, k, ns[k].lo);
    ReadNode(ns, size, d1, d2, nx, k);
    RaiseNumbers(ns, size, k);
  }

  lemma ReplacedEnds(ns: seq<Node>, k: nat, n: Node)
    requires k < |ns| && Apart(ns)
    ensures var ms := ns[k := n];
            && |ms| == |ns|
            && ms[0].pos == (if ns[0].pos == ns[k].pos then n.pos else ns[0].pos)
            && ms[|ms| - 1].pos == (if ns[|ns| - 1].pos == ns[k].pos then n.pos else ns[|ns| - 1].pos)
            && (ns[0].pos == ns[k].pos <==> k == 0) && (ns[|ns| - 1].pos == ns[k].pos <==> k + 1 == |ns|)
  {
  }

  /** The arrays after node k has moved to a free slot. */
  lemma RaiseCells(ns: seq<Node>, size: int, d1: seq<int>, d2: seq<int>, nx: seq<int>, pr: seq<int>, k: nat, n: Node)
    requires k < |ns| && Stored(ns, size, d1, d2, nx) && Linked(ns, size, pr) && Apart(ns)
    requires 0 <= n.pos < size && !Occupied(ns, n.pos)
    ensures |d1| == |d2| == |nx| == |pr| == size && 0 <= ns[k].pos < size && ns[k].pos != n.pos && d2[n.pos] == -1
    ensures k > 0 ==> 0 <= ns[k - 1].pos < size && ns[0].pos != ns[k].pos && ns[k - 1].pos != n.pos
    ensures k + 1 < |ns| ==> 0 <= ns[k + 1].pos < size && ns[|ns| - 1].pos != ns[k].pos && ns[k + 1].pos != n.pos
    ensures Stored(ns[k := n], size, d1[n.pos := Wrap(n.lo)][ns[k].pos := -1],
        d2[n.pos := EndMark(n.lo, n.hi)][ns[k].pos := -1],
                   if k > 0 then nx[n.pos := nx[ns[k].pos]][ns[k - 1].pos := n.pos] else nx[n.pos := nx[ns[k].pos]])
    ensures Linked(ns[k := n], size,
                   if k + 1 < |ns| then pr[n.pos := pr[ns[k].pos]][ns[k + 1].pos := n.pos]
                       else pr[n.pos := pr[ns[k].pos]])
  {
    hide Occupied, Wrap, EndMark;
    BlankAt(ns, size, d1, d2, nx, n.pos);
    PositionsOccupied(ns, n.pos);
    MovedStored(ns, size, d1, d2, nx, k, n);
    MovedLinked(ns, size, pr, k, n);
  }

  lemma RaiseNumbers(ns: seq<Node>, size: int, k: nat)
    requires k < |ns| && Fits(ns, size) && ns[k].lo < ns[k].hi && size < SEQ_NO_TH
    ensures (ns[k].pos + 1) % size == Move(ns[0].pos, ns[k].lo + 1 - ns[0].lo, size)
    ensures IncSeq(Wrap(ns[k].lo)) == Wrap(ns[k].lo + 1)
    ensures EndMark(ns[k].lo, ns[k].hi) == Wrap(ns[k].hi)
    ensures EndMark(ns[k].lo + 1, ns[k].hi) == if SeqCmp(Wrap(ns[k].hi), Wrap(ns[k].lo + 1)) > 0 then Wrap(ns[k].hi)
        else -1
  {
    ModIsMove(ns[k].pos, 1, size);
    MoveBetween(ns[0].pos, ns[k].lo - ns[0].lo, ns[k].lo + 1 - ns[0].lo, size);
    IncExact(ns[k].lo);
    CmpExact(ns[k].hi, ns[k].lo + 1);
  }

  lemma NodeHas(ns: seq<Node>, k: nat, x: int)
    requires k < |ns| && ns[k].lo <= x <= ns[k].hi
    ensures x in Elems(ns)
  {
    RemovedSums(ns, k);
  }

  lemma GrowTail(ns: seq<Node>, size: int, d1: seq<int>, d2: seq<int>, nx: seq<int>, pr: seq<int>, hi: int)
    requires ns != [] && Chain(ns, -1) && Fits(ns, size) && Stored(ns, size, d1, d2, nx) && Linked(ns, size, pr)
    requires ns[|ns| - 1].hi < hi && hi - ns[0].lo < size
    ensures var m := ns[|ns| - 1];
            var ms := ns[|ns| - 1 := Node(m.lo, hi, m.pos)];
            && 0 <= m.pos < size && ms[0].pos == ns[0].pos
            && Chain(ms, -1) && Fits(ms, size)
            && Stored(ms, size, d1, d2[m.pos := Wrap(hi)], nx) && Linked(ms, size, pr)
            && Count(ms) == Count(ns) + (hi - m.hi) && Elems(ms) == Elems(ns) + Span(m.hi + 1, hi)
  {
    var k, m := |ns| - 1, ns[|ns| - 1];
    hide Stored, Count, Elems, Chain, Fits, Linked;
    NodesApart(ns, size, -1);
    LastOrdered(ns);
    StoreExtend(ns, size, d1, d2, nx, k, hi);
    ExtendShape(ns, size, k, hi);
    ExtendSums(ns, k, m.hi + 1, hi);
    LastChain(ns[k := Node(m.lo, hi, m.pos)]);
    SameSlotsLinked(ns, size, pr, k, Node(m.lo, hi, m.pos));
  }

  lemma LastOrdered(ns: seq<Node>)
    requires ns != [] && Chain(ns, -1)
    ensures ns[|ns| - 1].lo <= ns[|ns| - 1].hi
  {
  }

  lemma SameSlotsLinked(ns: seq<Node>, size: int, pr: seq<int>, k: nat, n: Node)
    requires k < |ns| && Linked(ns, size, pr) && n.pos == ns[k].pos
    ensures Linked(ns[k := n], size, pr)
  {
  }

  lemma LastChain(ns: seq<Node>)
    requires ns != [] && Chain(ns, |ns| - 1)
    ensures Chain(ns, -1)
  {
  }

  lemma AppendNode(ns: seq<Node>, size: int, d1: seq<int>, d2: seq<int>, nx: seq<int>, pr: seq<int>, n: Node)
    requires ns != [] && Chain(ns, -1) && Fits(ns, size) && Stored(ns, size, d1, d2, nx) && Linked(ns, size, pr)
    requires ns[|ns| - 1].hi < n.lo <= n.hi && n.hi - ns[0].lo < size && ns[0].lo < n.lo
    requires n.pos == Move(ns[0].pos, n.lo - ns[0].lo, size)
    ensures var ms, m := ns + [n], ns[|ns| - 1];
            && 0 <= m.pos < size && 0 <= n.pos < size && d2[n.pos] == -1 && m.pos != n.pos
            && ms[0].pos == ns[0].pos
            && Chain(ms, -1) && Fits(ms, size)
            && Stored(ms, size, d1[n.pos := Wrap(n.lo)], d2[n.pos := EndMark(n.lo, n.hi)],
                nx[m.pos := n.pos][n.pos := -1])
            && Linked(ms, size, pr[n.pos := m.pos])
            && Count(ms) == Count(ns) + n.Len() && Elems(ms) == Elems(ns) + Span(n.lo, n.hi)
  {
    hide Chain, Fits, Stored, Linked, Count, Elems, Occupied, Move, Inserted, RoomAt;
    AppendRoom(ns, size, n);
    AppendIs(ns, n);
    InsertedChain(ns, size, |ns|, n);
    InsertedFits(ns, size, |ns|, n);
    LastChain(ns + [n]);
    NodesApart(ns, size, -1);
    NodesApart(ns + [n], size, -1);
    FreshSlot(ns, size, n);
    ReadNode(ns, size, d1, d2, nx, |ns| - 1);
    BlankAt(ns, size, d1, d2, nx, n.pos);
    StoreInsert(ns, size, d1, d2, nx, |ns|, n);
    SwapUpdates(nx, ns[|ns| - 1].pos, n.pos, n.pos, -1);
    InsertedSums(ns, |ns|, n);
    AppendLinked(ns, size, pr, n);
  }

  lemma AppendRoom(ns: seq<Node>, size: int, n: Node)
    requires ns != [] && Chain(ns, -1) && Fits(ns, size)
    requires ns[|ns| - 1].hi < n.lo <= n.hi && n.hi - ns[0].lo < size && ns[0].lo < n.lo
    requires n.pos == Move(ns[0].pos, n.lo - ns[0].lo, size)
    ensures RoomAt(ns, size, |ns|, n)
  {
  }

  lemma AppendIs(ns: seq<Node>, n: Node)
    ensures Inserted(ns, |ns|, n) == ns + [n]
  {
  }

  /** A node placed by its number takes a slot that no other node has. */
  lemma FreshSlot(ns: seq<Node>, size: int, n: Node)
    requires Fits(ns + [n], size) && Apart(ns + [n])
    ensures 0 <= n.pos < size && !Occupied(ns, n.pos)
  {
    var ms := ns + [n];
    assert ms[|ns|] == n;
    assert ms[0] == if ns == [] then n else ns[0];
    forall i | 0 <= i < |ns|
      ensures ns[i].pos != n.pos
    {
      assert ms[i] == ns[i];
    }
  }

  lemma AppendLinked(ns: seq<Node>, size: int, pr: seq<int>, n: Node)
    requires ns != [] && Linked(ns, size, pr) && 0 <= n.pos < size && !Occupied(ns, n.pos)
    ensures Linked(ns + [n], size, pr[n.pos := ns[|ns| - 1].pos])
  {
    PositionsOccupied(ns, n.pos);
  }

  lemma WrapLen(lo: int, hi: int, size: int)
    requires lo <= hi < lo + size && size < SEQ_NO_TH
    ensures Wrap(lo) == Wrap(hi) <==> lo == hi
    ensures SeqLen(Wrap(lo), Wrap(hi)) == hi - lo + 1
    ensures EndMark(lo, hi) == if lo == hi then -1 else Wrap(hi)
  {
    WrapDifference(lo, hi);
    LenExact(lo, hi);
  }

  lemma EmptyInsert(size: int, d1: seq<int>, d2: seq<int>, nx: seq<int>, pr: seq<int>, n: Node)
    requires Stored([], size, d1, d2, nx) && |pr| == size > 0
    requires n.pos == 0 && n.lo <= n.hi && n.hi - n.lo < size
    ensures |d1| == |d2| == |nx| == size && d2[0] == -1
    ensures Stored([n], size, d1[0 := Wrap(n.lo)], d2[0 := EndMark(n.lo, n.hi)], nx[0 := -1])
    ensures Linked([n], size, pr[0 := -1])
    ensures Chain([n], -1) && Fits([n], size) && Count([n]) == n.Len() && Elems([n]) == Span(n.lo, n.hi)
    ensures Elems([]) == {} && Count([]) == 0
  {
    hide *;
    StoredAlone(size, d1, d2, nx, n);
    LinkedAlone(size, pr, n);
  }

  lemma StoredAlone(size: int, d1: seq<int>, d2: seq<int>, nx: seq<int>, n: Node)
    requires Stored([], size, d1, d2, nx) && size > 0 && n.pos == 0
    ensures |d1| == |d2| == |nx| == size && d2[0] == -1
    ensures Stored([n], size, d1[0 := Wrap(n.lo)], d2[0 := EndMark(n.lo, n.hi)], nx[0 := -1])
  {
    hide Wrap, EndMark;
    assert !Occupied([], 0);
    BlankAt([], size, d1, d2, nx, 0);
    StoreFirst([], size, d1, d2, nx, n);
    assert Inserted([], 0, n) == [n];
  }

  lemma LinkedAlone(size: int, pr: seq<int>, n: Node)
    requires |pr| == size > 0 && n.pos == 0 && n.lo <= n.hi && n.hi - n.lo < size
    ensures Linked([n], size, pr[0 := -1])
    ensures Chain([n], -1) && Fits([n], size) && Count([n]) == n.Len() && Elems([n]) == Span(n.lo, n.hi)
    ensures Elems([]) == {} && Count([]) == 0
  {
    OneNode(n);
  }

  // ----- the arrays after a removal -----

  /** The links after node k is taken out. */
  function NextWithout(ns: seq<Node>, next: seq<int>, k: nat): seq<int>
    requires k < |ns| && forall i :: 0 <= i < |ns| ==> 0 <= ns[i].pos < |next|
  {
    if k > 0 then next[ns[k - 1].pos := next[ns[k].pos]] else next
  }

  function PriorWithout(ns: seq<Node>, prior: seq<int>, k: nat): seq<int>
    requires k < |ns| && forall i :: 0 <= i < |ns| ==> 0 <= ns[i].pos < |prior|
  {
    if k + 1 < |ns| then prior[ns[k + 1].pos := prior[ns[k].pos]] else prior
  }

  lemma UnlinkStored(ns: seq<Node>, size: int, d1: seq<int>, d2: seq<int>, nx: seq<int>, k: nat)
    requires k < |ns| && Stored(ns, size, d1, d2, nx) && Apart(ns)
    ensures Stored(Removed(ns, k), size, d1[ns[k].pos := -1], d2[ns[k].pos := -1], NextWithout(ns, nx, k))
  {
    hide Occupied, Wrap, Removed;
    RemovedPositions(ns, k);
    RemovedAt(ns, k);
    ReadNode(ns, size, d1, d2, nx, k);
  }

  lemma UnlinkLinked(ns: seq<Node>, size: int, pr: seq<int>, k: nat)
    requires k < |ns| && Linked(ns, size, pr) && Apart(ns)
    ensures Linked(Removed(ns, k), size, PriorWithout(ns, pr, k))
  {
    var ms, pr1 := Removed(ns, k), PriorWithout(ns, pr, k);
    forall i, j | 0 <= i < j < |ms| && j == i + 1
      ensures pr1[ms[j].pos] == ms[i].pos
    {
      if j < k {
      } else if j == k {
        assert ms[j] == ns[k + 1] && ms[i] == ns[k - 1];
      } else {
        assert ms[j] == ns[j + 1] && ms[i] == ns[i + 1];
      }
    }
  }

  /** The links after the slot of node k moves to loc. */
  function NextMoved(ns: seq<Node>, next: seq<int>, k: nat, loc: int): seq<int>
    requires k < |ns| && 0 <= loc < |next| && forall i :: 0 <= i < |ns| ==> 0 <= ns[i].pos < |next|
  {
    var nx := next[loc := next[ns[k].pos]];
    if k > 0 then nx[ns[k - 1].pos := loc] else nx
  }

  function PriorMoved(ns: seq<Node>, prior: seq<int>, k: nat, loc: int): seq<int>
    requires k < |ns| && 0 <= loc < |prior| && forall i :: 0 <= i < |ns| ==> 0 <= ns[i].pos < |prior|
  {
    var pr := prior[loc := prior[ns[k].pos]];
    if k + 1 < |ns| then pr[ns[k + 1].pos := loc] else pr
  }

  lemma MovedStored(ns: seq<Node>, size: int, d1: seq<int>, d2: seq<int>, nx: seq<int>, k: nat, n: Node)
    requires k < |ns| && Stored(ns, size, d1, d2, nx) && Apart(ns)
    requires 0 <= n.pos < size && !Occupied(ns, n.pos)
    ensures Stored(ns[k := n], size, d1[n.pos := Wrap(n.lo)][ns[k].pos := -1],
                   d2[n.pos := EndMark(n.lo, n.hi)][ns[k].pos := -1], NextMoved(ns, nx, k, n.pos))
  {
    hide Occupied, Wrap;
    ReplacedPositions(ns, k, n);
    PositionsOccupied(ns, n.pos);
    ReadNode(ns, size, d1, d2, nx, k);
    EndMarkIs(n.lo, n.hi);
  }

  lemma MovedLinked(ns: seq<Node>, size: int, pr: seq<int>, k: nat, n: Node)
    requires k < |ns| && Linked(ns, size, pr) && Apart(ns)
    requires 0 <= n.pos < size && !Occupied(ns, n.pos)
    ensures Linked(ns[k := n], size, PriorMoved(ns, pr, k, n.pos))
  {
    PositionsOccupied(ns, n.pos);
  }

  lemma CutStored(ns: seq<Node>, size: int, d1: seq<int>, d2: seq<int>, nx: seq<int>, k: nat, s: int, b: Node)
    requires k < |ns| && Stored(ns, size, d1, d2, nx) && Apart(ns) && ns[k].lo < s < ns[k].hi
    requires 0 <= b.pos < size && !Occupied(ns, b.pos)
    ensures 0 <= ns[k].pos < size && ns[k].pos != b.pos
    ensures var i := ns[k].pos;
            Stored(Inserted(ns[k := Node(ns[k].lo, s - 1, i)], k + 1, b), size, d1[b.pos := Wrap(b.lo)],
                   d2[b.pos := EndMark(b.lo, b.hi)][i := EndMark(ns[k].lo, s - 1)], nx[b.pos := nx[i]][i := b.pos])
  {
    var i := ns[k].pos;
    hide Stored, Wrap, Inserted, EndMark;
    ReadNode(ns, size, d1, d2, nx, k);
    StoreShorten(ns, size, d1, d2, nx, k, s - 1);
    StoreInsert(ns[k := Node(ns[k].lo, s - 1, i)], size, d1, d2[i := EndMark(ns[k].lo, s - 1)], nx, k + 1, b);
    StoredSizes(ns, size, d1, d2, nx);
    SwapUpdates(d2, i, EndMark(ns[k].lo, s - 1), b.pos, EndMark(b.lo, b.hi));
  }

  lemma StoredSizes(ns: seq<Node>, size: int, d1: seq<int>, d2: seq<int>, nx: seq<int>)
    requires Stored(ns, size, d1, d2, nx)
    ensures |d1| == |d2| == |nx| == size
  {
  }

  lemma CutLinked(ns: seq<Node>, size: int, pr: seq<int>, k: nat, a: Node, b: Node)
    requires k < |ns| && Linked(ns, size, pr) && Apart(ns) && a.pos == ns[k].pos
    requires 0 <= b.pos < size && !Occupied(ns, b.pos)
    ensures var pr1 := pr[b.pos := a.pos];
            Linked(Inserted(ns[k := a], k + 1, b), size, if k + 1 < |ns| then pr1[ns[k + 1].pos := b.pos] else pr1)
  {
    PositionsOccupied(ns, b.pos);
    InsertedAt(ns[k := a], k + 1, b);
    var ms := Inserted(ns[k := a], k + 1, b);
    forall i | 0 <= i < |ms|
      ensures ms[i].pos == if i <= k then ns[i].pos else if i == k + 1 then b.pos else ns[i - 1].pos
    {
    }
  }

  lemma AtHead(h: int, d: int, size: int, loc: int)
    requires 0 <= h < size && loc == (h + d) % size
    ensures d == 0 ==> loc == h
  {
    if d == 0 { InPlace(h, size); }
  }
}
