/**
 CSndUList (src/udt/src/queue.cpp): the sockets that wait to send, in a binary heap by time, where each node
 knows its place in the heap array.
 */
module SendSchedule {
  import opened Common

  /** CSNode: heapLoc is -1 while the node is not on the heap. */
  class SendNode {
    var timeStamp: int
    var heapLoc: int

    constructor ()
      ensures heapLoc == -1
    {
      timeStamp, heapLoc := 0, -1;
    }
  }

  // ----- heap order on times -----

  function Parent(i: nat): nat
    requires i > 0
  {
    (i - 1) / 2
  }

  ghost predicate Ordered(ts: seq<int>) {
    forall i {:trigger ts[i]} :: 0 < i < |ts| ==> ts[Parent(i)] <= ts[i]
  }

  /** In order except that the time at q may be too small for its place. */
  ghost predicate OrderedAbove(ts: seq<int>, q: nat) {
    && (forall i {:trigger ts[i]} :: 0 < i < |ts| && i != q ==> ts[Parent(i)] <= ts[i])
    && (forall i {:trigger ts[i]} :: 0 < i < |ts| && 0 < q < |ts| && Parent(i) == q ==> ts[Parent(q)] <= ts[i])
  }

  /** In order except that the time at q may be too large for its place. */
  ghost predicate OrderedBelow(ts: seq<int>, q: nat) {
    && (forall i {:trigger ts[i]} :: 0 < i < |ts| && Parent(i) != q ==> ts[Parent(i)] <= ts[i])
    && (forall i {:trigger ts[i]} :: 0 < i < |ts| && 0 < q < |ts| && Parent(i) == q ==> ts[Parent(q)] <= ts[i])
  }

  function Swap<T>(s: seq<T>, i: nat, j: nat): (t: seq<T>)
    requires i < |s| && j < |s|
    ensures |t| == |s|
  {
    s[i := s[j]][j := s[i]]
  }

  lemma SwapAt<T>(s: seq<T>, i: nat, j: nat)
    requires i < |s| && j < |s|
    ensures forall k :: 0 <= k < |s| ==> Swap(s, i, j)[k] == if k == i then s[j] else if k == j then s[i] else s[k]
  {
  }

  lemma SwapIsPermutation<T>(s: seq<T>, i: nat, j: nat)
    requires i < |s| && j < |s|
    ensures multiset(Swap(s, i, j)) == multiset(s)
    ensures forall x :: x in Swap(s, i, j) <==> x in s
  {
    var t := Swap(s, i, j);
    assert forall x :: x in t <==> x in multiset(t);
    assert forall x :: x in s <==> x in multiset(s);
  }

  /** The root carries the least time. */
  lemma {:induction false} RootIsLeast(ts: seq<int>, i: nat)
    requires Ordered(ts) && i < |ts|
    ensures ts[0] <= ts[i]
    decreases i
  {
    if i > 0 {
      RootIsLeast(ts, Parent(i));
    }
  }

  lemma SwapUp(ts: seq<int>, q: nat)
    requires 0 < q < |ts| && OrderedAbove(ts, q) && ts[Parent(q)] > ts[q]
    ensures OrderedAbove(Swap(ts, Parent(q), q), Parent(q))
  {
    var p := Parent(q);
    var us := Swap(ts, p, q);
    forall i {:trigger us[i]} | 0 < i < |us| && i != p
      ensures us[Parent(i)] <= us[i]
    {
      assert ts[i] == ts[i];
      assert p > 0 ==> ts[Parent(p)] <= ts[p];
    }
    forall i {:trigger us[i]} | 0 < i < |us| && 0 < p && Parent(i) == p
      ensures us[Parent(p)] <= us[i]
    {
      assert ts[Parent(p)] <= ts[p];
    }
  }

  lemma SwapDown(ts: seq<int>, q: nat, p: nat)
    requires q < |ts| && p < |ts| && p > 0 && Parent(p) == q && OrderedBelow(ts, q) && ts[q] > ts[p]
    requires forall i {:trigger ts[i]} :: 0 < i < |ts| && Parent(i) == q ==> ts[p] <= ts[i]
    ensures OrderedBelow(Swap(ts, p, q), p)
  {
    var us := Swap(ts, p, q);
    forall i {:trigger us[i]} | 0 < i < |us| && Parent(i) != p
      ensures us[Parent(i)] <= us[i]
    {
      assert ts[i] == ts[i];
    }
    forall i {:trigger us[i]} | 0 < i < |us| && Parent(i) == p
      ensures us[Parent(p)] <= us[i]
    {
      assert ts[i] == ts[i];
    }
  }

  /** A new time at the end may only be too small for its place. */
  lemma AppendAbove(ts: seq<int>, t: int)
    requires Ordered(ts)
    ensures OrderedAbove(ts + [t], |ts|)
  {
    var us := ts + [t];
    forall i {:trigger us[i]} | 0 < i < |us| && i != |ts|
      ensures us[Parent(i)] <= us[i]
    {
      assert ts[i] == us[i];
    }
  }

  /** The times once the one at q has risen as far as it goes. */
  function Risen(ts: seq<int>, q: nat): (us: seq<int>)
    requires q < |ts|
    ensures |us| == |ts|
    decreases q
  {
    if q > 0 && ts[Parent(q)] > ts[q] then Risen(Swap(ts, Parent(q), q), Parent(q)) else ts
  }

  /** i lies on the way from q to the root. */
  ghost predicate OnWay(i: nat, q: nat)
    decreases q
  {
    i == q || (q > 0 && OnWay(i, Parent(q)))
  }

  lemma {:induction false} RisenElsewhere(ts: seq<int>, q: nat, i: nat)
    requires q < |ts| && i < |ts| && !OnWay(i, q)
    ensures Risen(ts, q)[i] == ts[i]
    decreases q
  {
    if q > 0 && ts[Parent(q)] > ts[q] {
      RisenElsewhere(Swap(ts, Parent(q), q), Parent(q), i);
    }
  }

  lemma {:induction false} LessOnWay(ts: seq<int>, i: nat, q: nat)
    requires Ordered(ts) && q < |ts| && OnWay(i, q)
    ensures i <= q && ts[i] <= ts[q]
    decreases q
  {
    if i != q {
      LessOnWay(ts, i, Parent(q));
    }
  }

  /** A hole that breaks the order when it is filled still breaks it once a further time has come in. */
  lemma StillBroken(ts: seq<int>, k: nat, t: int)
    requires Ordered(ts) && k < |ts| && !SiftsDown(ts, k)
    ensures !Ordered(Risen(Filled(ts, k) + [t], |ts| - 1))
  {
    hide Risen, Ordered, OnWay;
    var last, us := |ts| - 1, Filled(ts, k) + [t];
    OrderedAt(ts, k);
    if OnWay(k, last) { LessOnWay(ts, k, last); }
    if OnWay(Parent(k), last) { LessOnWay(ts, Parent(k), last); }
    RisenElsewhere(us, last, k);
    RisenElsewhere(us, last, Parent(k));
    if Ordered(Risen(us, last)) { OrderedAt(Risen(us, last), k); }
  }

  lemma OrderedAt(ts: seq<int>, i: nat)
    requires Ordered(ts) && 0 < i < |ts|
    ensures ts[Parent(i)] <= ts[i]
  {
    assert ts[i] == ts[i];
  }

  /** The times once the last one has taken the place k. */
  function Filled(ts: seq<int>, k: nat): (us: seq<int>)
    requires k < |ts|
    ensures |us| == |ts| - 1
  {
    ts[k := ts[|ts| - 1]][..|ts| - 1]
  }

  /** Sifting down repairs the order only where the moved time is not smaller than the one above the hole. */
  ghost predicate SiftsDown(ts: seq<int>, k: nat)
    requires k < |ts|
  {
    k == |ts| - 1 || k == 0 || ts[Parent(k)] <= ts[|ts| - 1]
  }

  lemma FilledBelow(ts: seq<int>, k: nat)
    requires k < |ts| && Ordered(ts)
    ensures SiftsDown(ts, k) ==> OrderedBelow(Filled(ts, k), k)
    ensures !SiftsDown(ts, k) ==>
              && 0 < k < |ts| - 1 && Filled(ts, k)[k] < Filled(ts, k)[Parent(k)]
              && forall i {:trigger Filled(ts, k)[i]} :: 0 < i < |ts| - 1 && Parent(i) == k ==>
                  Filled(ts, k)[k] <= Filled(ts, k)[i]
  {
    var us := Filled(ts, k);
    forall i {:trigger us[i]} | 0 < i < |us|
      ensures i != k ==> us[i] == ts[i]
      ensures i != k && Parent(i) != k ==> us[Parent(i)] <= us[i]
      ensures Parent(i) == k && k > 0 ==> ts[Parent(k)] <= ts[i]
    {
      assert ts[i] == ts[i];
      if k > 0 { assert ts[k] == ts[k]; }
    }
  }

  function TimesOf(es: seq<SendNode>): (ts: seq<int>)
    reads es
    ensures |ts| == |es| && forall i :: 0 <= i < |es| ==> ts[i] == es[i].timeStamp
  {
    seq(|es|, i requires 0 <= i < |es| reads es => es[i].timeStamp)
  }

  ghost predicate Distinct(es: seq<SendNode>) {
    forall i, j :: 0 <= i < j < |es| ==> es[i] != es[j]
  }

  lemma SwapDistinct(es: seq<SendNode>, p: nat, q: nat)
    requires p < |es| && q < |es| && Distinct(es)
    ensures Distinct(Swap(es, p, q))
  {
  }

  class SendHeap {
    var heap: array<SendNode?>
    var lastEntry: int

    /** The nodes on the heap, in array order. */
    ghost var entries: seq<SendNode>
    /** The nodes of all sockets, on the heap or not. */
    ghost var sockets: set<SendNode>

    ghost predicate Shape()
      reads this, heap
    {
      && lastEntry + 1 == |entries| <= heap.Length && heap.Length > 0
      && (forall i :: 0 <= i < |entries| ==> heap[i] == entries[i])
      && (forall i :: 0 <= i < |entries| ==> entries[i] in sockets)
      && Distinct(entries)
    }

    /** Every node but `except` knows its place. */
    ghost predicate Placed(except: SendNode?)
      reads this, sockets
    {
      && (forall i :: 0 <= i < |entries| && entries[i] in sockets && entries[i] != except ==> entries[i].heapLoc == i)
      && forall n :: n in sockets && n != except && n !in entries ==> n.heapLoc == -1
    }

    ghost predicate Valid()
      reads this, heap, sockets
    {
      Shape() && Placed(null)
    }

    constructor ()
      ensures Valid() && entries == [] && sockets == {} && fresh(heap)
    {
      heap := new SendNode?[4096](_ => null);
      lastEntry := -1;
      entries, sockets := [], {};
    }

    /** CUDT::open: a new socket's node is off the heap. */
    method Open(n: SendNode)
      requires Valid() && n !in sockets && n.heapLoc == -1
      modifies this`sockets
      ensures Valid() && sockets == old(sockets) + {n}
    {
      sockets := sockets + {n};
    }

    lemma PlaceOf(n: SendNode)
      requires Valid() && n in sockets
      ensures n.heapLoc >= 0 <==> n in entries
      ensures n.heapLoc >= -1 && |entries| == lastEntry + 1
      ensures n.heapLoc >= 0 ==> n.heapLoc <= lastEntry && entries[n.heapLoc] == n
    {
    }

    /** One round of a sift: the nodes at p and q change places, the one that is not `moving` learns its own. */
    method Exchange(p: int, q: int, moving: SendNode)
      requires Shape() && Placed(moving) && 0 <= p <= lastEntry && 0 <= q <= lastEntry && p != q
      requires entries[q] == moving
      modifies heap, this`entries, sockets`heapLoc
      ensures Shape() && Placed(moving) && entries[p] == moving && moving.heapLoc == old(moving.heapLoc)
      ensures multiset(entries) == multiset(old(entries)) && |entries| == |old(entries)|
      ensures TimesOf(entries) == Swap(old(TimesOf(entries)), p, q)
    {
      hide Distinct;
      SwapIsPermutation(entries, p, q);
      SwapDistinct(entries, p, q);
      var t := heap[p];
      heap[p] := heap[q];
      heap[q] := t;
      t.heapLoc := q;
      entries := Swap(entries, p, q);
    }

    /** The loop of insert_: the node at the end rises to its place. */
    method SiftUp(n: SendNode) returns (q: int)
      requires Shape() && Placed(n) && lastEntry >= 0 && entries[lastEntry] == n
      modifies heap, this`entries, sockets`heapLoc
      ensures Shape() && Placed(n) && 0 <= q <= lastEntry && entries[q] == n
      ensures multiset(entries) == multiset(old(entries))
      ensures TimesOf(entries) == Risen(old(TimesOf(entries)), lastEntry)
      ensures OrderedAbove(old(TimesOf(entries)), lastEntry) ==> Ordered(TimesOf(entries))
      ensures q > 0 ==> TimesOf(entries)[0] == old(TimesOf(entries))[0]
      ensures q == 0 && lastEntry > 0 ==> n.timeStamp < old(TimesOf(entries))[0]
    {
      hide Swap, OrderedAbove, Parent;
      q := lastEntry;
      ghost var first := TimesOf(entries)[0];
      var p := q;
      ghost var ok := OrderedAbove(TimesOf(entries), lastEntry);
      while p != 0
        invariant 0 <= q <= lastEntry && p == q && Shape() && Placed(n) && entries[q] == n
        invariant multiset(entries) == multiset(old(entries))
        invariant Risen(TimesOf(entries), q) == Risen(old(TimesOf(entries)), lastEntry)
        invariant ok ==> OrderedAbove(TimesOf(entries), q)
        invariant q > 0 ==> TimesOf(entries)[0] == first
        invariant q == 0 && lastEntry > 0 ==> n.timeStamp < first
        decreases q
      {
        Halves(q);
        p := (q - 1) / 2;
        if heap[p].timeStamp > heap[q].timeStamp {
          if ok { SwapUp(TimesOf(entries), q); }
          SwapAt(TimesOf(entries), p, q);
          Exchange(p, q, n);
          q := p;
        } else {
          assert TimesOf(entries)[Parent(q)] <= TimesOf(entries)[q];
          break;
        }
      }
      if ok { AboveIsOrdered(TimesOf(entries), q); }
    }

    /** insert_: a node that is not on the heap yet joins it; the caller has seen to the room. */
    method InsertNode(ts: int, n: SendNode) returns (interrupt: bool)
      requires Valid() && n in sockets && (n.heapLoc < 0 ==> lastEntry + 1 < heap.Length)
      modifies heap, this`entries, this`lastEntry, sockets`heapLoc, n`timeStamp
      ensures Valid() && n.heapLoc >= 0
      ensures old(n.heapLoc) >= 0 ==> entries == old(entries) && n.timeStamp == old(n.timeStamp) && !interrupt
      ensures old(n.heapLoc) < 0 ==>
                && multiset(entries) == old(multiset(entries)) + multiset{n} && n.timeStamp == ts
                && (interrupt <==> entries[0] == n)
                && TimesOf(entries) == Risen(old(TimesOf(entries)) + [ts], |old(entries)|)
                && (old(Ordered(TimesOf(entries))) ==>
                      && Ordered(TimesOf(entries))
                      && (interrupt <==> Earlier(ts, old(TimesOf(entries)))))
    {
      hide Ordered, OrderedAbove, Shape, Placed, Risen, Earlier;
      PlaceOf(n);
      if n.heapLoc >= 0 {
        return false;
      }
      var q := Join(ts, n);
      interrupt := Settle(n, q);
    }

    /** The node takes its place, and does not know it yet. */
    method Join(ts: int, n: SendNode) returns (q: int)
      requires Valid() && n in sockets && n.heapLoc < 0 && lastEntry + 1 < heap.Length
      modifies heap, this`entries, this`lastEntry, sockets`heapLoc, n`timeStamp
      ensures Shape() && Placed(n) && 0 <= q <= lastEntry && entries[q] == n && n.timeStamp == ts
      ensures multiset(entries) == old(multiset(entries)) + multiset{n}
      ensures TimesOf(entries) == Risen(old(TimesOf(entries)) + [ts], |old(entries)|)
      ensures old(Ordered(TimesOf(entries))) ==>
                Ordered(TimesOf(entries)) && (q == 0 <==> Earlier(ts, old(TimesOf(entries))))
    {
      hide Ordered, OrderedAbove, Shape, Placed, Risen, Earlier;
      RoomLeft();
      ghost var times := TimesOf(entries);
      if Ordered(times) { AppendAbove(times, ts); }
      Append(ts, n);
      q := SiftUp(n);
      if Ordered(times) { FirstWhenEarlier(times, ts, TimesOf(entries), q); }
    }

    method Append(ts: int, n: SendNode)
      requires Valid() && n in sockets && n.heapLoc < 0 && lastEntry + 1 < heap.Length
      modifies heap, this`entries, this`lastEntry, n`timeStamp
      ensures Shape() && Placed(n) && lastEntry == old(lastEntry) + 1 == |entries| - 1 && entries[lastEntry] == n
      ensures multiset(entries) == old(multiset(entries)) + multiset{n}
      ensures n.timeStamp == ts && TimesOf(entries) == old(TimesOf(entries)) + [ts]
    {
      PlaceOf(n);
      lastEntry := lastEntry + 1;
      heap[lastEntry] := n;
      n.timeStamp := ts;
      entries := entries + [n];
    }

    /** The node that moved learns its place at last. */
    method Settle(n: SendNode, q: int) returns (interrupt: bool)
      requires Shape() && Placed(n) && 0 <= q <= lastEntry && entries[q] == n
      modifies n`heapLoc
      ensures Valid() && n.heapLoc == q && TimesOf(entries) == old(TimesOf(entries))
      ensures entries == old(entries) && (interrupt <==> q == 0) && (q == 0 <==> entries[0] == n)
    {
      n.heapLoc := q;
      assert entries[0].heapLoc == 0;
      interrupt := n.heapLoc == 0;
    }

    /** One round of the loop in remove_: both nodes learn their places. */
    method ExchangeDown(p: int, q: int, ghost removed: SendNode)
      requires Shape() && Placed(removed) && 0 <= p <= lastEntry && 0 <= q <= lastEntry && p != q && removed !in entries
      modifies heap, this`entries, sockets`heapLoc
      ensures Shape() && Placed(removed) && removed !in entries && removed.heapLoc == old(removed.heapLoc)
      ensures multiset(entries) == multiset(old(entries)) && |entries| == |old(entries)|
      ensures TimesOf(entries) == Swap(old(TimesOf(entries)), p, q)
    {
      hide Distinct, Swap;
      SwapIsPermutation(entries, p, q);
      SwapDistinct(entries, p, q);
      SwapAt(entries, p, q);
      SwapAt(TimesOf(entries), p, q);
      var t := heap[p];
      heap[p] := heap[q];
      heap[p].heapLoc := p;
      heap[q] := t;
      heap[q].heapLoc := q;
      entries := Swap(entries, p, q);
    }

    /** The loop of remove_: the node at place `loc` sinks to its place. */
    method SiftDown(loc: int, ghost removed: SendNode)
      requires Shape() && Placed(removed) && 0 <= loc <= lastEntry + 1 && removed !in entries
      modifies heap, this`entries, sockets`heapLoc
      ensures Shape() && Placed(removed) && removed !in entries && removed.heapLoc == old(removed.heapLoc)
      ensures multiset(entries) == multiset(old(entries)) && lastEntry == old(lastEntry)
      ensures OrderedBelow(old(TimesOf(entries)), loc) ==> Ordered(TimesOf(entries))
      ensures NoneBelow(old(TimesOf(entries)), loc) ==> TimesOf(entries) == old(TimesOf(entries))
    {
      hide Swap, OrderedBelow, NoneBelow, Ordered, Placed;
      var q := loc;
      var p := q * 2 + 1;
      ghost var times := TimesOf(entries);
      ghost var ok := OrderedBelow(times, loc);
      while p <= lastEntry
        invariant 0 <= q <= lastEntry + 1 && p == q * 2 + 1 && Shape() && Placed(removed) && removed !in entries
        invariant removed.heapLoc == old(removed.heapLoc) && multiset(entries) == multiset(old(entries))
        invariant ok ==> OrderedBelow(TimesOf(entries), q)
        invariant NoneBelow(times, loc) ==> q == loc && TimesOf(entries) == times
        decreases lastEntry - q
      {
        ghost var ts := TimesOf(entries);
        if p + 1 <= lastEntry && heap[p].timeStamp > heap[p + 1].timeStamp {
          p := p + 1;
        }
        LesserChild(ts, q, p);
        if heap[q].timeStamp > heap[p].timeStamp {
          if ok { SwapDown(ts, q, p); }
          ExchangeDown(p, q, removed);
          q := p;
          p := q * 2 + 1;
        } else {
          break;
        }
      }
      if ok { BelowIsOrdered(TimesOf(entries), q); }
    }

    /** remove_, first half: the last node takes the place of n. */
    method FillHole(n: SendNode)
      requires Valid() && n in sockets && n.heapLoc >= 0
      modifies heap, this`entries, this`lastEntry, sockets`heapLoc
      ensures Shape() && Placed(n) && n !in entries && n.heapLoc == old(n.heapLoc) <= lastEntry + 1 == old(lastEntry)
      ensures multiset(entries) == old(multiset(entries)) - multiset{n}
      ensures TimesOf(entries) == Filled(old(TimesOf(entries)), n.heapLoc)
    {
      PlaceOf(n);
      HoleFilled(entries, n.heapLoc);
      heap[n.heapLoc] := heap[lastEntry];
      entries := entries[n.heapLoc := entries[lastEntry]][..lastEntry];
      lastEntry := lastEntry - 1;
      heap[n.heapLoc].heapLoc := n.heapLoc;
    }

    /**
     remove_: the node leaves the heap. Removing from the middle keeps the order exactly when the node that
     fills the hole is not due before the one above it, because the sift only goes down.
     */
    method RemoveNode(n: SendNode) returns (interrupt: bool)
      requires Valid() && n in sockets
      modifies heap, this`entries, this`lastEntry, sockets`heapLoc
      ensures Valid() && n.heapLoc == -1 && (interrupt <==> |entries| == 1)
      ensures old(n.heapLoc) < 0 ==> entries == old(entries)
      ensures old(n.heapLoc) >= 0 ==>
                && multiset(entries) == old(multiset(entries)) - multiset{n} && lastEntry == old(lastEntry) - 1
                && (old(Ordered(TimesOf(entries))) ==>
                      && (Ordered(TimesOf(entries)) <==> old(SiftsDown(TimesOf(entries), n.heapLoc)))
                      && (!old(SiftsDown(TimesOf(entries), n.heapLoc)) ==>
                            TimesOf(entries) == old(Filled(TimesOf(entries), n.heapLoc))))
    {
      hide Ordered, OrderedBelow, SiftsDown, Filled, NoneBelow, Shape, Placed;
      PlaceOf(n);
      if n.heapLoc >= 0 {
        ghost var times := TimesOf(entries);
        if Ordered(times) {
          HoleOrder(times, n.heapLoc);
        }
        FillHole(n);
        SiftDown(n.heapLoc, n);
        Leave(n);
      }
      interrupt := Alone();
    }

    method Leave(n: SendNode)
      requires Shape() && Placed(n) && n in sockets && n !in entries
      modifies n`heapLoc
      ensures Valid() && n.heapLoc == -1 && TimesOf(entries) == old(TimesOf(entries))
    {
      n.heapLoc := -1;
    }

    method Alone() returns (r: bool)
      requires Valid()
      ensures r <==> |entries| == 1
    {
      return 0 == lastEntry;
    }

    // ----- the operations of the list -----

    /** insert: doubles the array first when it is full. */
    method Insert(ts: int, n: SendNode) returns (interrupt: bool)
      requires Valid() && n in sockets
      modifies this`heap, heap, this`entries, this`lastEntry, sockets`heapLoc, n`timeStamp
      ensures Valid() && n.heapLoc >= 0 && (heap == old(heap) || fresh(heap))
      ensures old(n.heapLoc) >= 0 ==> entries == old(entries) && n.timeStamp == old(n.timeStamp) && !interrupt
      ensures old(n.heapLoc) < 0 ==>
                && multiset(entries) == old(multiset(entries)) + multiset{n} && n.timeStamp == ts
                && (interrupt <==> entries[0] == n)
                && (old(Ordered(TimesOf(entries))) ==>
                      Ordered(TimesOf(entries)) && (interrupt <==> Earlier(ts, old(TimesOf(entries)))))
    {
      hide Ordered, Placed, Earlier, Risen;
      if lastEntry == heap.Length - 1 {
        Grow();
      }
      RoomLeft();
      interrupt := InsertNode(ts, n);
    }

    lemma RoomLeft()
      requires Valid()
      ensures lastEntry + 1 == |entries| <= heap.Length && heap.Length > 0
    {
    }

    lemma FrontOf()
      requires Valid() && entries != []
      ensures heap[0] == entries[0] && entries[0] in sockets && entries[0].heapLoc == 0
    {
    }

    method Grow()
      requires Valid()
      modifies this`heap
      ensures Valid() && fresh(heap) && heap.Length == 2 * old(heap.Length)
    {
      var temp := new SendNode?[heap.Length * 2](_ => null);
      for i := 0 to heap.Length
        invariant heap == old(heap) && forall k :: 0 <= k < i ==> temp[k] == heap[k]
      {
        temp[i] := heap[i];
      }
      heap := temp;
    }

    /**
     update: the socket should send as soon as possible. It does not grow the array, so a node that is not on
     the heap needs a free place.
     */
    method Update(n: SendNode, reschedule: bool) returns (interrupt: bool)
      requires Valid() && n in sockets && (n.heapLoc < 0 ==> lastEntry + 1 < heap.Length)
      modifies heap, this`entries, this`lastEntry, sockets`heapLoc, n`timeStamp
      ensures Valid() && n.heapLoc >= 0
      ensures multiset(entries) == if old(n.heapLoc) >= 0 then old(multiset(entries))
          else old(multiset(entries)) + multiset{n}
      ensures n.timeStamp == if old(n.heapLoc) >= 0 && !reschedule then old(n.timeStamp) else 1
      ensures old(Ordered(TimesOf(entries))) ==>
                (Ordered(TimesOf(entries)) <==>
                  || old(n.heapLoc) < 0 || !reschedule
                  || (old(n.heapLoc) == 0 && forall i :: 0 < i < |old(entries)| ==> 1 <= old(TimesOf(entries))[i])
                  || (old(n.heapLoc) > 0 && old(SiftsDown(TimesOf(entries), n.heapLoc))))
      ensures interrupt <==>
                && (old(n.heapLoc) < 0 || reschedule)
                && (entries[0] == n || (old(n.heapLoc) > 0 && |old(entries)| == 2))
      ensures old(n.heapLoc) < 0 && old(Ordered(TimesOf(entries))) ==>
                (interrupt <==> Earlier(1, old(TimesOf(entries))))
    {
      hide Earlier, Ordered, SiftsDown, Placed, Shape, Risen, Filled;
      PlaceOf(n);
      RoomLeft();
      interrupt := false;
      if n.heapLoc >= 0 {
        if !reschedule {
          return;
        }
        if n.heapLoc == 0 {
          AtRoot(n);
          return true;
        }
        interrupt := Again(n);
      } else {
        interrupt := InsertNode(1, n);
      }
    }

    /** A node that is not at the root is taken out and put back, due at once. */
    method Again(n: SendNode) returns (interrupt: bool)
      requires Valid() && n in sockets && n.heapLoc > 0
      modifies heap, this`entries, this`lastEntry, sockets`heapLoc, n`timeStamp
      ensures Valid() && n.heapLoc >= 0 && n.timeStamp == 1 && multiset(entries) == old(multiset(entries))
      ensures entries != [] && (interrupt <==> entries[0] == n || |old(entries)| == 2)
      ensures old(Ordered(TimesOf(entries))) ==>
                (Ordered(TimesOf(entries)) <==> old(SiftsDown(TimesOf(entries), n.heapLoc)))
    {
      hide Earlier, Ordered, SiftsDown, Placed, Risen, Filled;
      PlaceOf(n);
      RoomLeft();
      ghost var times, k := TimesOf(entries), n.heapLoc;
      if Ordered(times) && !SiftsDown(times, k) { StillBroken(times, k, 1); }
      var alone := RemoveNode(n);
      var first := InsertNode(1, n);
      interrupt := alone || first;
    }

    /** The root is due at once. */
    method AtRoot(n: SendNode)
      requires Valid() && n in sockets && n.heapLoc == 0
      modifies n`timeStamp
      ensures Valid() && n.timeStamp == 1
      ensures old(Ordered(TimesOf(entries))) ==>
                (Ordered(TimesOf(entries)) <==> forall i :: 0 < i < |entries| ==> 1 <= old(TimesOf(entries))[i])
    {
      PlaceOf(n);
      ghost var ts := TimesOf(entries);
      n.timeStamp := 1;
      assert TimesOf(entries) == ts[0 := 1];
      if Ordered(ts) { RootReplaced(ts, 1); }
    }

    /** pop without the sending: `due` says that packData produced a packet, `next` when it wants to send again. */
    method Pop(now: int, due: bool, next: int) returns (u: Option<SendNode>)
      requires Valid()
      modifies heap, this`entries, this`lastEntry, sockets`heapLoc, sockets`timeStamp
      ensures Valid()
      ensures u.None? <==> old(entries) == [] || now < old(TimesOf(entries))[0]
      ensures u.None? ==> entries == old(entries)
      ensures u.Some? ==> u.value == old(entries)[0]
      ensures u.Some? ==>
                multiset(entries) == if due && next > 0 then old(multiset(entries))
                    else old(multiset(entries)) - multiset{u.value}
      ensures u.Some? && due && next > 0 ==> u.value.timeStamp == next
      ensures forall m :: m in sockets && !(u == Some(m) && due && next > 0) ==> m.timeStamp == old(m.timeStamp)
      ensures old(Ordered(TimesOf(entries))) ==> Ordered(TimesOf(entries))
      ensures u.Some? && old(Ordered(TimesOf(entries))) ==>
                forall i :: 0 <= i < |old(entries)| ==> old(TimesOf(entries))[0] <= old(TimesOf(entries))[i]
    {
      hide Ordered, SiftsDown, Placed;
      RoomLeft();
      if lastEntry == -1 {
        return None;
      }
      if now < heap[0].timeStamp {
        return None;
      }
      ghost var times := TimesOf(entries);
      if Ordered(times) { LeastFirst(times); }
      FrontOf();
      var n: SendNode := heap[0];
      TakeRoot(n, due, next);
      return Some(n);
    }

    /** The root leaves the heap, and comes back at its next time if it has one. */
    method TakeRoot(n: SendNode, due: bool, next: int)
      requires Valid() && entries != [] && n == entries[0]
      modifies heap, this`entries, this`lastEntry, sockets`heapLoc, sockets`timeStamp
      ensures Valid()
      ensures multiset(entries) == if due && next > 0 then old(multiset(entries))
          else old(multiset(entries)) - multiset{n}
      ensures due && next > 0 ==> n.timeStamp == next
      ensures forall m :: m in sockets && !(m == n && due && next > 0) ==> m.timeStamp == old(m.timeStamp)
      ensures old(Ordered(TimesOf(entries))) ==> Ordered(TimesOf(entries))
    {
      hide Ordered, SiftsDown, Placed;
      RootSifts(TimesOf(entries));
      FrontOf();
      var alone := RemoveNode(n);
      if !due {
        return;
      }
      if next > 0 {
        RoomLeft();
        var interrupt := InsertNode(next, n);
      }
    }

    /** getNextProcTime: when the first node is due, 0 if there is none. */
    method GetNextProcTime() returns (ts: int)
      requires Valid()
      ensures entries == [] ==> ts == 0
      ensures entries != [] && Ordered(TimesOf(entries)) ==>
                ts in TimesOf(entries) && forall i :: 0 <= i < |entries| ==> ts <= entries[i].timeStamp
    {
      if -1 == lastEntry {
        return 0;
      }
      ts := heap[0].timeStamp;
      if Ordered(TimesOf(entries)) {
        LeastFirst(TimesOf(entries));
        assert ts == TimesOf(entries)[0];
      }
    }
  }

  lemma Halves(q: nat)
    requires q > 0
    ensures Parent(q) == (q - 1) / 2 < q
  {
  }

  lemma AboveIsOrdered(ts: seq<int>, q: nat)
    requires q < |ts| && OrderedAbove(ts, q) && (q > 0 ==> ts[Parent(q)] <= ts[q])
    ensures Ordered(ts)
  {
  }

  /** No time right below q is smaller. */
  ghost predicate NoneBelow(ts: seq<int>, q: nat) {
    forall i {:trigger ts[i]} :: 0 < i < |ts| && Parent(i) == q ==> q < |ts| && ts[q] <= ts[i]
  }

  /** p is the child of q with the lesser time. */
  lemma LesserChild(ts: seq<int>, q: nat, p: nat)
    requires q < p < |ts| && (p == 2 * q + 1 || p == 2 * q + 2)
    requires p == 2 * q + 1 && p + 1 < |ts| ==> ts[p] <= ts[p + 1]
    requires p == 2 * q + 2 ==> ts[p] <= ts[p - 1]
    ensures Parent(p) == q
    ensures forall i {:trigger ts[i]} :: 0 < i < |ts| && Parent(i) == q ==> ts[p] <= ts[i]
    ensures NoneBelow(ts, q) <==> ts[q] <= ts[p]
  {
    assert ts[p] == ts[p];
    forall i {:trigger ts[i]} | 0 < i < |ts| && Parent(i) == q
      ensures i == 2 * q + 1 || i == 2 * q + 2
    {
    }
  }

  lemma BelowIsOrdered(ts: seq<int>, q: nat)
    requires OrderedBelow(ts, q) && (2 * q + 1 >= |ts| || NoneBelow(ts, q))
    ensures Ordered(ts)
  {
    forall i {:trigger ts[i]} | 0 < i < |ts| && Parent(i) == q
      ensures ts[Parent(i)] <= ts[i]
    {
      assert 2 * q + 1 <= i;
    }
  }

  lemma HoleFilled(es: seq<SendNode>, k: nat)
    requires k < |es| && Distinct(es)
    ensures var fs := es[k := es[|es| - 1]][..|es| - 1];
            && multiset(fs) == multiset(es) - multiset{es[k]}
            && es[k] !in fs && Distinct(fs)
            && (forall x :: x in fs <==> x in es && x != es[k])
  {
    var fs := es[k := es[|es| - 1]][..|es| - 1];
    HoleMultiset(es, k);
    forall x | x in fs
      ensures x in es && x != es[k]
    {
      var i :| 0 <= i < |fs| && fs[i] == x;
      assert fs[i] == if i == k then es[|es| - 1] else es[i];
    }
    forall x | x in es && x != es[k]
      ensures x in fs
    {
      var i :| 0 <= i < |es| && es[i] == x;
      assert fs[if i == |es| - 1 then k else i] == x;
    }
  }

  lemma HoleMultiset(es: seq<SendNode>, k: nat)
    requires k < |es|
    ensures multiset(es[k := es[|es| - 1]][..|es| - 1]) == multiset(es) - multiset{es[k]}
  {
    var last := |es| - 1;
    var gs := es[k := es[last]];
    assert gs == gs[..last] + [es[last]];
    assert multiset(gs) == multiset(gs[..last]) + multiset{es[last]};
    assert multiset(gs) == multiset(es) - multiset{es[k]} + multiset{es[last]};
    assert multiset(gs[..last]) == multiset(gs) - multiset{es[last]};
  }

  lemma HoleOrder(ts: seq<int>, k: nat)
    requires k < |ts| && Ordered(ts)
    ensures SiftsDown(ts, k) ==> OrderedBelow(Filled(ts, k), k)
    ensures !SiftsDown(ts, k) ==> NoneBelow(Filled(ts, k), k) && !Ordered(Filled(ts, k))
  {
    FilledBelow(ts, k);
    if !SiftsDown(ts, k) {
      assert Filled(ts, k)[k] == Filled(ts, k)[k];
    }
  }

  /** t comes before all of ts. */
  ghost predicate Earlier(t: int, ts: seq<int>) {
    forall i :: 0 <= i < |ts| ==> t < ts[i]
  }

  lemma FirstWhenEarlier(ts: seq<int>, t: int, us: seq<int>, q: nat)
    requires Ordered(ts) && Ordered(us) && q < |us| == |ts| + 1 && us[q] == t
    requires if q > 0 then us[0] == ts[0] else ts != [] ==> t < ts[0]
    ensures q == 0 <==> Earlier(t, ts)
  {
    if ts != [] { LeastFirst(ts); }
    RootIsLeast(us, q);
  }

  lemma LeastFirst(ts: seq<int>)
    requires Ordered(ts)
    ensures forall i :: 0 <= i < |ts| ==> ts[0] <= ts[i]
  {
    forall i | 0 <= i < |ts|
      ensures ts[0] <= ts[i]
    {
      RootIsLeast(ts, i);
    }
  }

  lemma RootReplaced(ts: seq<int>, t: int)
    requires ts != [] && Ordered(ts)
    ensures Ordered(ts[0 := t]) <==> forall i :: 0 < i < |ts| ==> t <= ts[i]
  {
    var us := ts[0 := t];
    if Ordered(us) {
      forall i | 0 < i < |ts|
        ensures t <= ts[i]
      {
        RootIsLeast(us, i);
      }
    }
    forall i {:trigger us[i]} | 0 < i < |us| && t <= ts[i]
      ensures us[Parent(i)] <= us[i]
    {
      assert ts[Parent(i)] <= ts[i];
    }
  }

  lemma RootSifts(ts: seq<int>)
    requires ts != []
    ensures SiftsDown(ts, 0)
  {
  }

  /** Removing from the middle can break the order: the last time, 3, ends up below 10. */
  lemma InteriorRemovalCanBreakOrder(ts: seq<int>)
    requires ts == [1, 10, 2, 11, 12, 3]
    ensures Ordered(ts) && !SiftsDown(ts, 3) && !Ordered(Filled(ts, 3))
  {
    assert ts[0] == 1 && ts[1] == 10 && ts[2] == 2 && ts[3] == 11 && ts[4] == 12 && ts[5] == 3;
    assert Parent(1) == 0 && Parent(2) == 0 && Parent(3) == 1 && Parent(4) == 1 && Parent(5) == 2;
    HoleOrder(ts, 3);
  }
}
