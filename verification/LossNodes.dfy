/**
 The abstract content of a loss list: a chain of intervals of unbounded sequence numbers, each with
 the array slot that its first number determines (src/udt/src/list.cpp).
 */
module LossNodes {
  import opened Common
  import opened SeqNo

  datatype Node = Node(lo: int, hi: int, pos: int) {
    function Len(): int {
      hi - lo + 1
    }
  }

  /** Intervals in increasing order and disjoint, except that node k may run into its successors. */
  ghost predicate Chain(ns: seq<Node>, k: int) {
    && (forall i :: 0 <= i < |ns| ==> ns[i].lo <= ns[i].hi)
    && (forall i, j :: 0 <= i < j < |ns| ==> ns[i].lo < ns[j].lo && (i != k ==> ns[i].hi < ns[j].lo))
  }

  /** The whole list spans fewer numbers than there are slots, and slots follow the distance from the head. */
  ghost predicate Fits(ns: seq<Node>, size: int) {
    && (ns != [] ==> 0 <= ns[0].pos < size)
    && forall i :: 0 <= i < |ns| ==>
         0 <= ns[i].lo - ns[0].lo <= ns[i].hi - ns[0].lo < size
             && ns[i].pos == Move(ns[0].pos, ns[i].lo - ns[0].lo, size)
  }

  ghost predicate Occupied(ns: seq<Node>, p: int) {
    exists i :: 0 <= i < |ns| && ns[i].pos == p
  }

  /** The set of numbers in the list. */
  ghost function Elems(ns: seq<Node>): set<int> {
    if ns == [] then {} else Elems(ns[..|ns| - 1]) + Span(ns[|ns| - 1].lo, ns[|ns| - 1].hi)
  }

  /** The number that m_iLength keeps: the sum of the interval lengths. */
  ghost function Count(ns: seq<Node>): int {
    if ns == [] then 0 else Count(ns[..|ns| - 1]) + ns[|ns| - 1].Len()
  }

  lemma Cut<T>(s: seq<T>, k: nat)
    requires k <= |s|
    ensures s[..k] + s[k..] == s
  {
  }

  lemma {:induction false} Concat(a: seq<Node>, b: seq<Node>)
    ensures Count(a + b) == Count(a) + Count(b)
    ensures Elems(a + b) == Elems(a) + Elems(b)
    decreases |b|
  {
    if b == [] {
      assert a + b == a;
    } else {
      assert (a + b)[..|a + b| - 1] == a + b[..|b| - 1];
      Concat(a, b[..|b| - 1]);
    }
  }

  lemma OneNode(n: Node)
    ensures Count([n]) == n.Len()
    ensures Elems([n]) == Span(n.lo, n.hi)
  {
    var ns := [n];
    assert ns[..0] == [];
  }

  /** What a bound on the intervals says of the elements. */
  lemma {:induction false} ElemsWithin(ns: seq<Node>, lo: int, hi: int)
    requires forall i :: 0 <= i < |ns| ==> lo <= ns[i].lo && ns[i].hi <= hi
    ensures forall x :: x in Elems(ns) ==> lo <= x <= hi
    decreases |ns|
  {
    if ns != [] {
      ElemsWithin(ns[..|ns| - 1], lo, hi);
    }
  }

  /** In a chain the lengths add up to the number of elements. */
  lemma {:induction false} CountIsSize(ns: seq<Node>)
    requires Chain(ns, -1)
    ensures Count(ns) == |Elems(ns)|
    decreases |ns|
  {
    if ns != [] {
      var m := ns[|ns| - 1];
      var rest := ns[..|ns| - 1];
      CountIsSize(rest);
      ElemsWithin(rest, ns[0].lo, m.lo - 1);
      assert Elems(rest) !! Span(m.lo, m.hi);
    }
  }

  // ----- changing one place of the chain -----

  ghost function Inserted(ns: seq<Node>, k: nat, n: Node): seq<Node>
    requires k <= |ns|
  {
    ns[..k] + [n] + ns[k..]
  }

  ghost function Removed(ns: seq<Node>, k: nat): seq<Node>
    requires k < |ns|
  {
    ns[..k] + ns[k + 1..]
  }

  lemma InsertedSums(ns: seq<Node>, k: nat, n: Node)
    requires k <= |ns|
    ensures Count(Inserted(ns, k, n)) == Count(ns) + n.Len()
    ensures Elems(Inserted(ns, k, n)) == Elems(ns) + Span(n.lo, n.hi)
  {
    hide Elems, Count;
    Cut(ns, k);
    Concat(ns[..k], ns[k..]);
    Concat(ns[..k] + [n], ns[k..]);
    Concat(ns[..k], [n]);
    OneNode(n);
  }

  lemma PutBack(ns: seq<Node>, k: nat)
    requires k < |ns|
    ensures Inserted(Removed(ns, k), k, ns[k]) == ns
  {
    var r := Removed(ns, k);
    assert r[..k] == ns[..k];
    assert r[k..] == ns[k + 1..];
    assert ns == ns[..k] + [ns[k]] + ns[k + 1..];
  }

  lemma RemovedSums(ns: seq<Node>, k: nat)
    requires k < |ns|
    ensures Count(ns) == Count(Removed(ns, k)) + ns[k].Len()
    ensures Elems(ns) == Elems(Removed(ns, k)) + Span(ns[k].lo, ns[k].hi)
  {
    PutBack(ns, k);
    InsertedSums(Removed(ns, k), k, ns[k]);
  }

  lemma ReplacedSums(ns: seq<Node>, k: nat, n: Node)
    requires k < |ns|
    ensures Count(ns[k := n]) == Count(ns) - ns[k].Len() + n.Len()
    ensures Elems(ns[k := n]) == Elems(Removed(ns, k)) + Span(n.lo, n.hi)
  {
    RemovedSums(ns, k);
    RemovedSums(ns[k := n], k);
    assert Removed(ns[k := n], k) == Removed(ns, k);
  }

  lemma MoveBetween(h: int, d: int, e: int, size: int)
    requires 0 <= h < size && -size < d < size && -size < e < size && -size < e - d < size
    ensures 0 <= Move(h, d, size) < size
    ensures Move(h, e, size) == Move(Move(h, d, size), e - d, size)
  {
  }

  /** Slots are measured from the head, so a new head must agree with the old one on every node. */
  lemma NewHead(ns: seq<Node>, size: int, n: Node)
    requires ns != [] && Fits(ns, size)
    requires n.lo <= n.hi && n.lo < ns[0].lo && n.hi - n.lo < size
    requires forall i :: 0 <= i < |ns| ==> ns[0].lo <= ns[i].lo && ns[i].hi - n.lo < size
    requires n.pos == Move(ns[0].pos, n.lo - ns[0].lo, size)
    ensures Fits([n] + ns, size)
  {
    forall i | 0 <= i < |ns|
      ensures ns[i].pos == Move(n.pos, ns[i].lo - n.lo, size)
    {
      assert ns[0].hi - n.lo < size;
      MoveBetween(ns[0].pos, n.lo - ns[0].lo, ns[i].lo - ns[0].lo, size);
    }
  }

  /** Dropping nodes from the front keeps the slots consistent. */
  lemma DropNodes(ns: seq<Node>, size: int, k: nat)
    requires k < |ns| && Chain(ns, -1) && Fits(ns, size)
    ensures Fits(ns[k..], size) && Chain(ns[k..], -1)
  {
    forall i | k <= i < |ns|
      ensures ns[i].pos == Move(ns[k].pos, ns[i].lo - ns[k].lo, size)
    {
      MoveBetween(ns[0].pos, ns[k].lo - ns[0].lo, ns[i].lo - ns[0].lo, size);
    }
  }

  /** Distinct numbers of the list's span have distinct slots. */
  lemma SlotsDiffer(h: int, d: int, e: int, size: int)
    requires 0 <= h < size && 0 <= d < e < size
    ensures Move(h, d, size) != Move(h, e, size)
  {
  }

  // ----- the steps of insertion -----

  lemma CountPositive(ns: seq<Node>, k: int)
    requires Chain(ns, k)
    ensures Count(ns) >= |ns|
    decreases |ns|
  {
    if ns != [] {
      CountPositive(ns[..|ns| - 1], k);
    }
  }

  /** Node k is made to reach up to hi. */
  lemma ExtendSums(ns: seq<Node>, k: nat, lo: int, hi: int)
    requires k < |ns| && ns[k].lo <= lo <= ns[k].hi + 1 && ns[k].hi <= hi && lo <= hi
    ensures var ms := ns[k := Node(ns[k].lo, hi, ns[k].pos)];
            && Count(ms) == Count(ns) + (hi - ns[k].hi)
            && Elems(ms) == Elems(ns) + Span(lo, hi)
  {
    var n := Node(ns[k].lo, hi, ns[k].pos);
    RemovedSums(ns, k);
    ReplacedSums(ns, k, n);
    assert Span(n.lo, n.hi) == Span(ns[k].lo, ns[k].hi) + Span(lo, hi);
  }

  lemma ExtendShape(ns: seq<Node>, size: int, k: nat, hi: int)
    requires k < |ns| && Chain(ns, -1) && Fits(ns, size)
    requires ns[k].hi <= hi < ns[0].lo + size
    ensures var ms := ns[k := Node(ns[k].lo, hi, ns[k].pos)];
            && Chain(ms, k) && Fits(ms, size)
            && (forall p :: Occupied(ns, p) <==> Occupied(ms, p))
  {
    var ms := ns[k := Node(ns[k].lo, hi, ns[k].pos)];
    SamePositions(ns, ms);
  }

  lemma SamePositions(ns: seq<Node>, ms: seq<Node>)
    requires |ns| == |ms| && forall i :: 0 <= i < |ns| ==> ns[i].pos == ms[i].pos
    ensures forall p :: Occupied(ns, p) <==> Occupied(ms, p)
  {
    forall p | Occupied(ns, p)
      ensures Occupied(ms, p)
    {
      var i :| 0 <= i < |ns| && ns[i].pos == p;
      assert ms[i].pos == p;
    }
    forall p | Occupied(ms, p)
      ensures Occupied(ns, p)
    {
      var i :| 0 <= i < |ms| && ms[i].pos == p;
      assert ns[i].pos == p;
    }
  }

  /** Nodes k and k + 1 as one interval, when the second begins inside the first or right behind it. */
  ghost function Merged(ns: seq<Node>, k: nat): seq<Node>
    requires k + 1 < |ns|
  {
    Removed(ns, k + 1)[k := Node(ns[k].lo, Max(ns[k].hi, ns[k + 1].hi), ns[k].pos)]
  }

  lemma MergedSums(ns: seq<Node>, k: nat)
    requires k + 1 < |ns| && ns[k].lo <= ns[k + 1].lo <= ns[k].hi + 1 && ns[k + 1].lo <= ns[k + 1].hi
    ensures Elems(Merged(ns, k)) == Elems(ns)
    ensures Count(Merged(ns, k)) == Count(ns) - (Min(ns[k].hi, ns[k + 1].hi) - ns[k + 1].lo + 1)
  {
    hide Elems, Count;
    var r := Removed(ns, k + 1);
    RemovedSums(ns, k + 1);
    ReplacedSums(r, k, Node(ns[k].lo, Max(ns[k].hi, ns[k + 1].hi), ns[k].pos));
    RemovedSums(r, k);
    SpanUnion(ns[k].lo, ns[k].hi, ns[k + 1].lo, ns[k + 1].hi);
  }

  lemma SpanUnion(lo: int, hi: int, lo': int, hi': int)
    requires lo <= lo' <= hi + 1 && lo' <= hi'
    ensures Span(lo, Max(hi, hi')) == Span(lo, hi) + Span(lo', hi')
  {
  }

  lemma MergedAt(ns: seq<Node>, k: nat)
    requires k + 1 < |ns|
    ensures |Merged(ns, k)| == |ns| - 1
    ensures forall i :: 0 <= i < |ns| - 1 && i != k ==> Merged(ns, k)[i] == ns[if i <= k then i else i + 1]
    ensures Merged(ns, k)[k] == Node(ns[k].lo, Max(ns[k].hi, ns[k + 1].hi), ns[k].pos)
  {
  }

  lemma MergedShape(ns: seq<Node>, size: int, k: nat)
    requires k + 1 < |ns| && Chain(ns, k) && Fits(ns, size)
    ensures Chain(Merged(ns, k), k) && Fits(Merged(ns, k), size)
  {
    var ms := Merged(ns, k);
    forall i | 0 <= i < |ms|
      ensures ms[i].lo == ns[if i <= k then i else i + 1].lo && ms[i].pos == ns[if i <= k then i else i + 1].pos
      ensures i != k ==> ms[i] == ns[if i <= k then i else i + 1]
    {
    }
  }

  lemma MergedPositions(ns: seq<Node>, k: nat)
    requires k + 1 < |ns|
    requires forall i :: 0 <= i < |ns| && i != k + 1 ==> ns[i].pos != ns[k + 1].pos
    ensures forall p :: Occupied(Merged(ns, k), p) <==> Occupied(ns, p) && p != ns[k + 1].pos
  {
    var ms := Merged(ns, k);
    forall p | Occupied(ns, p) && p != ns[k + 1].pos
      ensures Occupied(ms, p)
    {
      var i :| 0 <= i < |ns| && ns[i].pos == p;
      assert ms[if i <= k then i else i - 1].pos == p;
    }
    forall p | Occupied(ms, p)
      ensures Occupied(ns, p) && p != ns[k + 1].pos
    {
      var i :| 0 <= i < |ms| && ms[i].pos == p;
      assert ns[if i <= k then i else i + 1].pos == p;
    }
  }

  lemma InsertedPositions(ns: seq<Node>, k: nat, n: Node)
    requires k <= |ns|
    ensures forall p :: Occupied(Inserted(ns, k, n), p) <==> Occupied(ns, p) || p == n.pos
  {
    var ms := Inserted(ns, k, n);
    assert ms[k] == n;
    forall p | Occupied(ns, p)
      ensures Occupied(ms, p)
    {
      var i :| 0 <= i < |ns| && ns[i].pos == p;
      assert ms[if i < k then i else i + 1].pos == p;
    }
    forall p | Occupied(ms, p)
      ensures Occupied(ns, p) || p == n.pos
    {
      var i :| 0 <= i < |ms| && ms[i].pos == p;
      if i != k { assert ns[if i < k then i else i - 1].pos == p; }
    }
  }

  lemma InsertedAt(ns: seq<Node>, k: nat, n: Node)
    requires k <= |ns|
    ensures |Inserted(ns, k, n)| == |ns| + 1
    ensures forall i :: 0 <= i < k ==> Inserted(ns, k, n)[i] == ns[i]
    ensures Inserted(ns, k, n)[k] == n
    ensures forall i :: k < i <= |ns| ==> Inserted(ns, k, n)[i] == ns[i - 1]
  {
  }

  /** Room for a node at place k, which may still run into its successors. */
  ghost predicate RoomAt(ns: seq<Node>, size: int, k: nat, n: Node) {
    && ns != [] && k <= |ns| && Chain(ns, -1) && Fits(ns, size)
    && n.lo <= n.hi
    && (k > 0 ==> ns[k - 1].hi < n.lo)
    && (k < |ns| ==> n.lo < ns[k].lo)
    && n.hi - Min(n.lo, ns[0].lo) < size && ns[|ns| - 1].hi - n.lo < size
    && n.pos == Move(ns[0].pos, n.lo - ns[0].lo, size)
  }

  lemma InsertedChain(ns: seq<Node>, size: int, k: nat, n: Node)
    requires RoomAt(ns, size, k, n)
    ensures k <= |ns| && Chain(Inserted(ns, k, n), k)
  {
    RoomFor(ns, size, k, n);
    hide RoomAt, Inserted;
    InsertedAt(ns, k, n);
    forall i, j | 0 <= i < j <= |ns|
      ensures var ms := Inserted(ns, k, n); ms[i].lo < ms[j].lo && (i != k ==> ms[i].hi < ms[j].lo)
    {
      InsertedPair(ns, size, k, n, i, j);
    }
    forall i | 0 <= i <= |ns|
      ensures Inserted(ns, k, n)[i].lo <= Inserted(ns, k, n)[i].hi
    {
      InsertedNode(ns, size, k, n, i);
    }
  }

  lemma RoomFor(ns: seq<Node>, size: int, k: nat, n: Node)
    requires RoomAt(ns, size, k, n)
    ensures k <= |ns|
  {
  }

  lemma InsertedNode(ns: seq<Node>, size: int, k: nat, n: Node, i: nat)
    requires k <= |ns| && i <= |ns| && RoomAt(ns, size, k, n)
    ensures Inserted(ns, k, n)[i].lo <= Inserted(ns, k, n)[i].hi
  {
  }

  lemma InsertedPair(ns: seq<Node>, size: int, k: nat, n: Node, i: nat, j: nat)
    requires k <= |ns| && i < j <= |ns| && RoomAt(ns, size, k, n)
    ensures var ms := Inserted(ns, k, n); ms[i].lo < ms[j].lo && (i != k ==> ms[i].hi < ms[j].lo)
  {
    hide Fits, Move;
    if i < k && j == k {
      assert ns[i].hi <= ns[k - 1].hi;
    } else if i == k {
      assert ns[k].lo <= ns[j - 1].lo;
    }
  }

  lemma InsertedFits(ns: seq<Node>, size: int, k: nat, n: Node)
    requires RoomAt(ns, size, k, n)
    ensures Fits(Inserted(ns, k, n), size)
  {
    if k == 0 {
      InsertedFirst(ns, size, n);
    } else {
      InsertedLater(ns, size, k, n);
    }
  }

  lemma InsertedFirst(ns: seq<Node>, size: int, n: Node)
    requires RoomAt(ns, size, 0, n)
    ensures Fits(Inserted(ns, 0, n), size)
  {
    forall i | 0 <= i < |ns|
      ensures ns[0].lo <= ns[i].lo && ns[i].hi - n.lo < size
    {
      assert ns[i].hi <= ns[|ns| - 1].hi;
    }
    NewHead(ns, size, n);
    assert Inserted(ns, 0, n) == [n] + ns;
  }

  lemma InsertedLater(ns: seq<Node>, size: int, k: nat, n: Node)
    requires RoomAt(ns, size, k, n) && k > 0
    ensures Fits(Inserted(ns, k, n), size)
  {
    var ms := Inserted(ns, k, n);
    assert n.lo > ns[0].lo by { assert ns[k - 1].hi >= ns[0].lo; }
    forall i | 0 <= i < |ms|
      ensures 0 <= ms[i].lo - ms[0].lo <= ms[i].hi - ms[0].lo < size
          && ms[i].pos == Move(ms[0].pos, ms[i].lo - ms[0].lo, size)
    {
      assert ms[i] == if i < k then ns[i] else if i == k then n else ns[i - 1];
    }
  }

  // ----- the steps of removal -----

  /** The chain without its first number. */
  ghost function Trimmed(ns: seq<Node>, size: int): seq<Node>
    requires ns != []
  {
    if ns[0].lo == ns[0].hi then ns[1..]
    else [Node(ns[0].lo + 1, ns[0].hi, Move(ns[0].pos, 1, size))] + ns[1..]
  }

  lemma HeadIsLeast(ns: seq<Node>)
    requires ns != [] && Chain(ns, -1)
    ensures Elems(ns) != {} && ns[0].lo == Least(Elems(ns))
  {
    RemovedSums(ns, 0);
    assert ns[0].lo in Elems(ns);
    forall i | 0 <= i < |ns|
      ensures ns[0].lo <= ns[i].lo && ns[i].hi <= ns[|ns| - 1].hi
    {
    }
    ElemsWithin(ns, ns[0].lo, ns[|ns| - 1].hi);
  }

  lemma TailAbove(ns: seq<Node>)
    requires ns != [] && Chain(ns, -1)
    ensures ns[0].lo <= ns[0].hi
    ensures forall x :: x in Elems(ns[1..]) ==> x > ns[0].hi
  {
    if |ns| > 1 {
      forall i | 0 <= i < |ns[1..]|
        ensures ns[0].hi + 1 <= ns[1..][i].lo && ns[1..][i].hi <= ns[|ns| - 1].hi
      {
        assert ns[1..][i] == ns[i + 1];
      }
      ElemsWithin(ns[1..], ns[0].hi + 1, ns[|ns| - 1].hi);
    }
  }

  lemma HeadSums(ns: seq<Node>)
    requires ns != []
    ensures Elems(ns) == Span(ns[0].lo, ns[0].hi) + Elems(ns[1..])
    ensures Count(ns) == ns[0].Len() + Count(ns[1..])
  {
    assert [ns[0]] + ns[1..] == ns;
    Concat([ns[0]], ns[1..]);
    OneNode(ns[0]);
  }

  lemma TrimmedSums(ns: seq<Node>, size: int)
    requires ns != [] && Chain(ns, -1)
    ensures Elems(Trimmed(ns, size)) == Elems(ns) - {ns[0].lo}
    ensures Count(Trimmed(ns, size)) == Count(ns) - 1
  {
    hide Elems, Count, Chain, Move, Span;
    HeadSums(ns);
    TailAbove(ns);
    FirstOfSpan(ns[0].lo, ns[0].hi, Elems(ns[1..]));
    if ns[0].lo < ns[0].hi {
      HeadSums(Trimmed(ns, size));
      assert Trimmed(ns, size)[1..] == ns[1..];
    }
  }

  lemma FirstOfSpan(lo: int, hi: int, rest: set<int>)
    requires forall x :: x in rest ==> x > hi
    ensures lo <= hi ==> (Span(lo, hi) + rest) - {lo} == Span(lo + 1, hi) + rest
    ensures lo == hi ==> Span(lo + 1, hi) + rest == rest
  {
  }

  lemma TrimmedShape(ns: seq<Node>, size: int)
    requires ns != [] && Chain(ns, -1) && Fits(ns, size)
    ensures Chain(Trimmed(ns, size), -1) && Fits(Trimmed(ns, size), size)
  {
    if ns[0].lo == ns[0].hi {
      if |ns| > 1 { DropNodes(ns, size, 1); }
    } else {
      ShortenedHead(ns, size);
    }
  }

  lemma ShortenedHead(ns: seq<Node>, size: int)
    requires ns != [] && Chain(ns, -1) && Fits(ns, size) && ns[0].lo < ns[0].hi
    ensures Chain(Trimmed(ns, size), -1) && Fits(Trimmed(ns, size), size)
  {
    hide Move, Elems, Count, Fits;
    var ms := Trimmed(ns, size);
    assert |ms| == |ns| && forall i :: 0 < i < |ms| ==> ms[i] == ns[i];
    ShortenedFits(ns, size);
  }

  lemma ShortenedFits(ns: seq<Node>, size: int)
    requires ns != [] && Chain(ns, -1) && Fits(ns, size) && ns[0].lo < ns[0].hi
    ensures Fits(Trimmed(ns, size), size)
  {
    hide Move, Elems, Count, Chain;
    var ms := Trimmed(ns, size);
    forall i | 0 <= i < |ms|
      ensures 0 <= ms[i].lo - ms[0].lo <= ms[i].hi - ms[0].lo < size
      ensures 0 <= ms[0].pos < size && ms[i].pos == Move(ms[0].pos, ms[i].lo - ms[0].lo, size)
    {
      assert i > 0 ==> ms[i] == ns[i];
      ShortenedSlot(ns, size, i);
    }
  }

  lemma ShortenedSlot(ns: seq<Node>, size: int, i: nat)
    requires i < |ns| && Chain(ns, -1) && Fits(ns, size) && ns[0].lo < ns[0].hi
    ensures var p := Move(ns[0].pos, 1, size);
            && 0 <= p < size && Move(p, 0, size) == p
            && (i > 0 ==> ns[i].pos == Move(p, ns[i].lo - ns[0].lo - 1, size))
            && ns[i].hi - ns[0].lo < size && ns[i].lo <= ns[i].hi && (i > 0 ==> ns[0].lo < ns[i].lo)
  {
    MoveBetween(ns[0].pos, 1, 1, size);
    if i > 0 { MoveBetween(ns[0].pos, 1, ns[i].lo - ns[0].lo, size); }
  }

  /** Node k cut in two behind the number s. */
  ghost function Split(ns: seq<Node>, k: nat, s: int, loc: int): seq<Node>
    requires k < |ns|
  {
    Inserted(ns[k := Node(ns[k].lo, s, ns[k].pos)], k + 1, Node(s + 1, ns[k].hi, loc))
  }

  lemma SplitSums(ns: seq<Node>, k: nat, s: int, loc: int)
    requires k < |ns| && ns[k].lo <= s < ns[k].hi
    ensures Count(Split(ns, k, s, loc)) == Count(ns)
    ensures Elems(Split(ns, k, s, loc)) == Elems(ns)
  {
    hide Elems, Count, Inserted, Removed;
    var a, b := Node(ns[k].lo, s, ns[k].pos), Node(s + 1, ns[k].hi, loc);
    InsertedSums(ns[k := a], k + 1, b);
    ReplacedSums(ns, k, a);
    RemovedSums(ns, k);
    SpanUnion(a.lo, a.hi, b.lo, b.hi);
  }

  lemma SplitRoom(ns: seq<Node>, size: int, k: nat, s: int)
    requires k < |ns| && Chain(ns, -1) && Fits(ns, size) && ns[k].lo <= s < ns[k].hi
    ensures RoomAt(ns[k := Node(ns[k].lo, s, ns[k].pos)], size, k + 1,
                   Node(s + 1, ns[k].hi, Move(ns[0].pos, s + 1 - ns[0].lo, size)))
  {
  }

  /** Everything up to s is gone when the first k nodes end by s and the next begins behind it. */
  lemma DropSums(ns: seq<Node>, k: nat, s: int)
    requires k <= |ns| && Chain(ns, -1)
    requires forall i :: 0 <= i < k ==> ns[i].hi <= s
    requires k < |ns| ==> s < ns[k].lo
    ensures forall x :: x in Elems(ns[k..]) <==> x in Elems(ns) && x > s
  {
    hide Elems, Count;
    assert ns[..k] + ns[k..] == ns;
    Concat(ns[..k], ns[k..]);
    FrontBelow(ns, k, s);
    BackAbove(ns, k, s);
  }

  lemma FrontBelow(ns: seq<Node>, k: nat, s: int)
    requires k <= |ns| && Chain(ns, -1)
    requires forall i :: 0 <= i < k ==> ns[i].hi <= s
    ensures forall x :: x in Elems(ns[..k]) ==> x <= s
  {
    if k > 0 {
      var a := ns[..k];
      forall i | 0 <= i < k
        ensures ns[0].lo <= a[i].lo && a[i].hi <= s
      {
      }
      ElemsWithin(a, ns[0].lo, s);
    }
  }

  lemma BackAbove(ns: seq<Node>, k: nat, s: int)
    requires k <= |ns| && Chain(ns, -1)
    requires k < |ns| ==> s < ns[k].lo
    ensures forall x :: x in Elems(ns[k..]) ==> x > s
  {
    if k < |ns| {
      var b := ns[k..];
      forall i | 0 <= i < |b|
        ensures s + 1 <= b[i].lo && b[i].hi <= ns[|ns| - 1].hi
      {
        assert b[i] == ns[k + i];
      }
      ElemsWithin(b, s + 1, ns[|ns| - 1].hi);
    }
  }

  // ----- the arrays behind the chain -----

  /** First number, and last number or -1. */
  ghost predicate Cells(ns: seq<Node>, size: int, data1: seq<int>, data2: seq<int>) {
    && |data1| == |data2| == size
    && (forall i :: 0 <= i < |ns| ==>
          && 0 <= ns[i].pos < size
          && data1[ns[i].pos] == Wrap(ns[i].lo)
          && data2[ns[i].pos] == if ns[i].lo == ns[i].hi then -1 else Wrap(ns[i].hi))
  }

  /** The slot of the successor, or -1. */
  ghost predicate Links(ns: seq<Node>, size: int, next: seq<int>) {
    && |next| == size
    && (forall i :: 0 <= i < |ns| ==> 0 <= ns[i].pos < size)
    && (forall i, j :: 0 <= i < j < |ns| && j == i + 1 ==> next[ns[i].pos] == ns[j].pos)
    && (ns != [] ==> next[ns[|ns| - 1].pos] == -1)
  }

  /** Slots that hold no node are blank. */
  ghost predicate Blanks(ns: seq<Node>, size: int, data1: seq<int>, data2: seq<int>) {
    && |data1| == |data2| == size
    && (forall p :: 0 <= p < size && !Occupied(ns, p) ==> data1[p] == -1 && data2[p] == -1)
  }

  /** The arrays hold the nodes and nothing else. */
  ghost predicate Stored(ns: seq<Node>, size: int, data1: seq<int>, data2: seq<int>, next: seq<int>) {
    Cells(ns, size, data1, data2) && Links(ns, size, next) && Blanks(ns, size, data1, data2)
  }

  function EndMark(lo: int, hi: int): int {
    if lo == hi then -1 else Wrap(hi)
  }

  /** Distinct nodes have distinct slots. */
  ghost predicate Apart(ns: seq<Node>) {
    forall i, j :: 0 <= i < j < |ns| ==> ns[i].pos != ns[j].pos
  }

  lemma NodesApart(ns: seq<Node>, size: int, k: int)
    requires Chain(ns, k) && Fits(ns, size)
    ensures Apart(ns)
  {
    forall i, j | 0 <= i < j < |ns|
      ensures ns[i].pos != ns[j].pos
    {
      SlotsDiffer(ns[0].pos, ns[i].lo - ns[0].lo, ns[j].lo - ns[0].lo, size);
    }
  }

  lemma NodeOccupies(ns: seq<Node>, k: nat)
    requires k < |ns|
    ensures Occupied(ns, ns[k].pos)
  {
  }

  /** What the arrays show at node k. */
  lemma ReadNode(ns: seq<Node>, size: int, data1: seq<int>, data2: seq<int>, next: seq<int>, k: nat)
    requires Stored(ns, size, data1, data2, next) && k < |ns|
    ensures 0 <= ns[k].pos < size && Occupied(ns, ns[k].pos)
    ensures data1[ns[k].pos] == Wrap(ns[k].lo)
    ensures data2[ns[k].pos] == EndMark(ns[k].lo, ns[k].hi)
    ensures next[ns[k].pos] == if k + 1 < |ns| then ns[k + 1].pos else -1
  {
  }

  lemma StoreExtend(ns: seq<Node>, size: int, data1: seq<int>, data2: seq<int>, next: seq<int>, k: nat, hi: int)
    requires Stored(ns, size, data1, data2, next) && Apart(ns) && k < |ns| && ns[k].lo < hi
    ensures 0 <= ns[k].pos < size
    ensures Stored(ns[k := Node(ns[k].lo, hi, ns[k].pos)], size, data1, data2[ns[k].pos := Wrap(hi)], next)
  {
    SamePositions(ns, ns[k := Node(ns[k].lo, hi, ns[k].pos)]);
  }

  lemma StoreMerge(ns: seq<Node>, size: int, data1: seq<int>, data2: seq<int>, next: seq<int>, k: nat)
    requires Stored(ns, size, data1, data2, next) && Apart(ns) && k + 1 < |ns| && ns[k].lo < ns[k].hi
    ensures 0 <= ns[k].pos < size && 0 <= ns[k + 1].pos < size
    ensures var a, b := ns[k].pos, ns[k + 1].pos;
            Stored(Merged(ns, k), size, data1[b := -1],
                   data2[a := Wrap(Max(ns[k].hi, ns[k + 1].hi))][b := -1], next[a := next[b]])
  {
    hide Occupied, Wrap, Merged;
    MergedAt(ns, k);
    MergedPositions(ns, k);
  }

  lemma StoreInsert(ns: seq<Node>, size: int, data1: seq<int>, data2: seq<int>, next: seq<int>, k: nat, n: Node)
    requires Stored(ns, size, data1, data2, next) && Apart(ns) && 0 < k <= |ns|
    requires 0 <= n.pos < size && !Occupied(ns, n.pos)
    ensures 0 <= ns[k - 1].pos < size
    ensures var i := ns[k - 1].pos;
            Stored(Inserted(ns, k, n), size, data1[n.pos := Wrap(n.lo)], data2[n.pos := EndMark(n.lo, n.hi)],
                   next[n.pos := next[i]][i := n.pos])
  {
    hide Cells, Links, Blanks, Occupied, Wrap, Inserted, EndMark;
    CellsInsert(ns, size, data1, data2, k, n);
    LinksInsert(ns, size, next, k, n);
    BlanksInsert(ns, size, data1, data2, k, n);
  }

  lemma CellsInsert(ns: seq<Node>, size: int, data1: seq<int>, data2: seq<int>, k: nat, n: Node)
    requires Cells(ns, size, data1, data2) && k <= |ns|
    requires 0 <= n.pos < size && !Occupied(ns, n.pos)
    ensures |data1| == |data2| == size
    ensures Cells(Inserted(ns, k, n), size, data1[n.pos := Wrap(n.lo)], data2[n.pos := EndMark(n.lo, n.hi)])
  {
    hide Occupied, Wrap, Inserted, EndMark;
    InsertedAt(ns, k, n);
    PositionsOccupied(ns, n.pos);
    EndMarkIs(n.lo, n.hi);
  }

  lemma BlanksInsert(ns: seq<Node>, size: int, data1: seq<int>, data2: seq<int>, k: nat, n: Node)
    requires Blanks(ns, size, data1, data2) && k <= |ns| && 0 <= n.pos < size
    ensures |data1| == |data2| == size
    ensures Blanks(Inserted(ns, k, n), size, data1[n.pos := Wrap(n.lo)], data2[n.pos := EndMark(n.lo, n.hi)])
  {
    hide Occupied, Wrap, Inserted, EndMark;
    InsertedPositions(ns, k, n);
  }

  lemma LinksInsert(ns: seq<Node>, size: int, next: seq<int>, k: nat, n: Node)
    requires Links(ns, size, next) && Apart(ns) && 0 < k <= |ns|
    requires 0 <= n.pos < size && !Occupied(ns, n.pos)
    ensures |next| == size && 0 <= ns[k - 1].pos < size
    ensures Links(Inserted(ns, k, n), size, next[n.pos := next[ns[k - 1].pos]][ns[k - 1].pos := n.pos])
  {
    hide Occupied, Inserted;
    InsertedAt(ns, k, n);
    PositionsOccupied(ns, n.pos);
  }

  lemma PositionsOccupied(ns: seq<Node>, p: int)
    requires !Occupied(ns, p)
    ensures forall i :: 0 <= i < |ns| ==> ns[i].pos != p
  {
  }

  lemma StoreFirst(ns: seq<Node>, size: int, data1: seq<int>, data2: seq<int>, next: seq<int>, n: Node)
    requires Stored(ns, size, data1, data2, next)
    requires 0 <= n.pos < size && !Occupied(ns, n.pos)
    ensures Stored(Inserted(ns, 0, n), size, data1[n.pos := Wrap(n.lo)], data2[n.pos := EndMark(n.lo, n.hi)],
                   next[n.pos := if ns == [] then -1 else ns[0].pos])
  {
    hide Occupied, Wrap, Inserted, EndMark;
    InsertedAt(ns, 0, n);
    InsertedPositions(ns, 0, n);
    PositionsOccupied(ns, n.pos);
    EndMarkIs(n.lo, n.hi);
  }

  lemma StoreDrop(ns: seq<Node>, size: int, data1: seq<int>, data2: seq<int>, next: seq<int>)
    requires Stored(ns, size, data1, data2, next) && Apart(ns) && ns != []
    ensures 0 <= ns[0].pos < size
    ensures Stored(ns[1..], size, data1[ns[0].pos := -1], data2[ns[0].pos := -1], next)
    ensures forall p :: Occupied(ns[1..], p) <==> Occupied(ns, p) && p != ns[0].pos
  {
    TailPositions(ns);
  }

  lemma TailPositions(ns: seq<Node>)
    requires ns != [] && Apart(ns)
    ensures forall p :: Occupied(ns[1..], p) <==> Occupied(ns, p) && p != ns[0].pos
  {
    forall p | Occupied(ns, p) && p != ns[0].pos
      ensures Occupied(ns[1..], p)
    {
      var i :| 0 <= i < |ns| && ns[i].pos == p;
      assert ns[1..][i - 1].pos == p;
    }
    forall p | Occupied(ns[1..], p)
      ensures Occupied(ns, p) && p != ns[0].pos
    {
      var i :| 0 <= i < |ns[1..]| && ns[1..][i].pos == p;
      assert ns[i + 1].pos == p;
    }
  }

  /** Cutting node k behind s is shortening it and then inserting the rest behind it. */
  lemma StoreSplit(ns: seq<Node>, size: int, data1: seq<int>, data2: seq<int>, next: seq<int>, k: nat, s: int, loc: int)
    requires Stored(ns, size, data1, data2, next) && Apart(ns) && k < |ns|
    requires 0 <= loc < size && !Occupied(ns, loc) && ns[k].lo <= s < ns[k].hi
    ensures 0 <= ns[k].pos < size
    ensures var i := ns[k].pos;
            Stored(Split(ns, k, s, loc), size, data1[loc := Wrap(s + 1)],
                   data2[loc := EndMark(s + 1, ns[k].hi)][i := EndMark(ns[k].lo, s)],
                   next[loc := next[i]][i := loc])
  {
    hide Stored, Occupied, Wrap, EndMark, Inserted;
    var i, a, b := ns[k].pos, Node(ns[k].lo, s, ns[k].pos), Node(s + 1, ns[k].hi, loc);
    ReadNode(ns, size, data1, data2, next, k);
    StoredLengths(ns, size, data1, data2, next);
    StoreShorten(ns, size, data1, data2, next, k, s);
    StoreInsert(ns[k := a], size, data1, data2[i := EndMark(a.lo, s)], next, k + 1, b);
    assert data2[i := EndMark(a.lo, s)][loc := EndMark(b.lo, b.hi)] ==
        data2[loc := EndMark(b.lo, b.hi)][i := EndMark(a.lo, s)];
  }

  lemma StoredLengths(ns: seq<Node>, size: int, data1: seq<int>, data2: seq<int>, next: seq<int>)
    requires Stored(ns, size, data1, data2, next)
    ensures |data1| == |data2| == |next| == size
  {
  }

  lemma StoreShorten(ns: seq<Node>, size: int, data1: seq<int>, data2: seq<int>, next: seq<int>, k: nat, s: int)
    requires Stored(ns, size, data1, data2, next) && Apart(ns) && k < |ns| && ns[k].lo <= s
    ensures 0 <= ns[k].pos < size
    ensures var ms := ns[k := Node(ns[k].lo, s, ns[k].pos)];
            && Stored(ms, size, data1, data2[ns[k].pos := EndMark(ns[k].lo, s)], next)
            && Apart(ms) && (forall p :: Occupied(ms, p) <==> Occupied(ns, p))
  {
    SamePositions(ns, ns[k := Node(ns[k].lo, s, ns[k].pos)]);
  }

  // ----- taking one number out -----

  /** A number of node k is in no other node. */
  lemma NotElsewhere(ns: seq<Node>, k: nat, s: int)
    requires k < |ns| && Chain(ns, -1) && ns[k].lo <= s <= ns[k].hi
    ensures s !in Elems(Removed(ns, k))
  {
    hide Elems;
    Concat(ns[..k], ns[k + 1..]);
    forall i | 0 <= i < k
      ensures ns[i].hi <= ns[k].lo - 1
    {
    }
    FrontBelow(ns, k, ns[k].lo - 1);
    BackAbove(ns, k + 1, ns[k].hi);
  }

  /** Node k without its number s: what is left of it below and above. */
  ghost function Without(ns: seq<Node>, size: int, k: nat, s: int): seq<Node>
    requires k < |ns|
  {
    var n, loc := ns[k], Move(ns[0].pos, s + 1 - ns[0].lo, size);
    if n.lo == n.hi then Removed(ns, k)
    else if n.lo == s then ns[k := Node(s + 1, n.hi, loc)]
    else if s == n.hi then ns[k := Node(n.lo, s - 1, n.pos)]
    else Inserted(ns[k := Node(n.lo, s - 1, n.pos)], k + 1, Node(s + 1, n.hi, loc))
  }

  lemma WithoutSums(ns: seq<Node>, size: int, k: nat, s: int)
    requires k < |ns| && Chain(ns, -1) && ns[k].lo <= s <= ns[k].hi
    ensures Elems(Without(ns, size, k, s)) == Elems(ns) - {s}
    ensures Count(Without(ns, size, k, s)) == Count(ns) - 1
  {
    hide Elems, Count, Chain, Removed, Inserted, Move;
    var n, loc := ns[k], Move(ns[0].pos, s + 1 - ns[0].lo, size);
    var a, b := Node(n.lo, s - 1, n.pos), Node(s + 1, n.hi, loc);
    NotElsewhere(ns, k, s);
    RemovedSums(ns, k);
    SpanWithout(n.lo, s, n.hi, Elems(Removed(ns, k)));
    if n.lo < n.hi {
      ReplacedSums(ns, k, b);
      ReplacedSums(ns, k, a);
      InsertedSums(ns[k := a], k + 1, b);
    }
  }

  lemma SpanWithout(lo: int, s: int, hi: int, rest: set<int>)
    requires lo <= s <= hi && s !in rest
    ensures rest + Span(lo, s - 1) + Span(s + 1, hi) == (rest + Span(lo, hi)) - {s}
    ensures lo == s ==> rest + Span(s + 1, hi) == (rest + Span(lo, hi)) - {s}
    ensures s == hi ==> rest + Span(lo, s - 1) == (rest + Span(lo, hi)) - {s}
    ensures lo == hi ==> rest == (rest + Span(lo, hi)) - {s}
  {
  }

  lemma WithoutShape(ns: seq<Node>, size: int, k: nat, s: int)
    requires k < |ns| && Chain(ns, -1) && Fits(ns, size) && ns[k].lo <= s <= ns[k].hi
    ensures Chain(Without(ns, size, k, s), -1) && Fits(Without(ns, size, k, s), size)
  {
    hide Inserted, Removed, Move, Chain, Fits;
    var n := ns[k];
    if n.lo == n.hi {
      RemovedShape(ns, size, k);
    } else if n.lo == s {
      RaisedShape(ns, size, k);
    } else if s == n.hi {
      LoweredShape(ns, size, k, s - 1);
    } else {
      CutShape(ns, size, k, s);
    }
  }

  lemma RemovedShape(ns: seq<Node>, size: int, k: nat)
    requires k < |ns| && Chain(ns, -1) && Fits(ns, size)
    ensures Chain(Removed(ns, k), -1) && Fits(Removed(ns, k), size)
  {
    if k == 0 {
      assert Removed(ns, 0) == ns[1..];
      if |ns| > 1 { DropNodes(ns, size, 1); }
    } else {
      RemovedLater(ns, size, k);
    }
  }

  lemma RemovedLater(ns: seq<Node>, size: int, k: nat)
    requires 0 < k < |ns| && Chain(ns, -1) && Fits(ns, size)
    ensures Chain(Removed(ns, k), -1) && Fits(Removed(ns, k), size)
  {
    hide Move, Elems, Count, Removed;
    RemovedAt(ns, k);
  }

  lemma RemovedAt(ns: seq<Node>, k: nat)
    requires k < |ns|
    ensures |Removed(ns, k)| == |ns| - 1
    ensures forall i :: 0 <= i < k ==> Removed(ns, k)[i] == ns[i]
    ensures forall i :: k <= i < |ns| - 1 ==> Removed(ns, k)[i] == ns[i + 1]
  {
  }

  lemma RaisedShape(ns: seq<Node>, size: int, k: nat)
    requires k < |ns| && Chain(ns, -1) && Fits(ns, size) && ns[k].lo < ns[k].hi
    ensures var ms := ns[k := Node(ns[k].lo + 1, ns[k].hi, Move(ns[0].pos, ns[k].lo + 1 - ns[0].lo, size))];
            Chain(ms, -1) && Fits(ms, size)
  {
    if k == 0 {
      TrimmedShape(ns, size);
      assert Trimmed(ns, size) == ns[0 := Node(ns[0].lo + 1, ns[0].hi, Move(ns[0].pos, 1, size))];
    }
  }

  lemma LoweredShape(ns: seq<Node>, size: int, k: nat, hi: int)
    requires k < |ns| && Chain(ns, -1) && Fits(ns, size) && ns[k].lo <= hi <= ns[k].hi
    ensures var ms := ns[k := Node(ns[k].lo, hi, ns[k].pos)];
            Chain(ms, -1) && Fits(ms, size)
  {
  }

  lemma CutShape(ns: seq<Node>, size: int, k: nat, s: int)
    requires k < |ns| && Chain(ns, -1) && Fits(ns, size) && ns[k].lo < s < ns[k].hi
    ensures var ms := Inserted(ns[k := Node(ns[k].lo, s - 1, ns[k].pos)], k + 1,
                               Node(s + 1, ns[k].hi, Move(ns[0].pos, s + 1 - ns[0].lo, size)));
            Chain(ms, -1) && Fits(ms, size)
  {
    hide Inserted, Move;
    var a, b := ns[k := Node(ns[k].lo, s - 1, ns[k].pos)],
        Node(s + 1, ns[k].hi, Move(ns[0].pos, s + 1 - ns[0].lo, size));
    LoweredShape(ns, size, k, s - 1);
    CutRoom(ns, size, k, s);
    InsertedChain(a, size, k + 1, b);
    InsertedFits(a, size, k + 1, b);
    InsertedAt(a, k + 1, b);
    var ms := Inserted(a, k + 1, b);
    assert k + 2 < |ms| ==> ms[k + 2] == ns[k + 1] && ns[k].hi < ns[k + 1].lo;
    ChainJoins(ms, k + 1);
  }

  lemma CutRoom(ns: seq<Node>, size: int, k: nat, s: int)
    requires k < |ns| && Chain(ns, -1) && Fits(ns, size) && ns[k].lo < s < ns[k].hi
    ensures RoomAt(ns[k := Node(ns[k].lo, s - 1, ns[k].pos)], size, k + 1,
                   Node(s + 1, ns[k].hi, Move(ns[0].pos, s + 1 - ns[0].lo, size)))
  {
  }

  lemma ChainJoins(ns: seq<Node>, k: nat)
    requires k < |ns| && Chain(ns, k) && (k + 1 < |ns| ==> ns[k].hi < ns[k + 1].lo)
    ensures Chain(ns, -1)
  {
    forall i, j | 0 <= i < j < |ns|
      ensures ns[i].hi < ns[j].lo
    {
      if i == k && j > k + 1 { assert ns[k + 1].lo < ns[j].lo; }
    }
  }

  lemma RemovedPositions(ns: seq<Node>, k: nat)
    requires k < |ns| && Apart(ns)
    ensures forall p :: Occupied(Removed(ns, k), p) <==> Occupied(ns, p) && p != ns[k].pos
  {
    var ms := Removed(ns, k);
    forall p | Occupied(ns, p) && p != ns[k].pos
      ensures Occupied(ms, p)
    {
      var i :| 0 <= i < |ns| && ns[i].pos == p;
      assert ms[if i < k then i else i - 1].pos == p;
    }
    forall p | Occupied(ms, p)
      ensures Occupied(ns, p) && p != ns[k].pos
    {
      var i :| 0 <= i < |ms| && ms[i].pos == p;
      assert ns[if i < k then i else i + 1].pos == p;
    }
  }

  lemma ReplacedPositions(ns: seq<Node>, k: nat, n: Node)
    requires k < |ns| && Apart(ns)
    ensures forall p :: Occupied(ns[k := n], p) <==> (Occupied(ns, p) && p != ns[k].pos) || p == n.pos
  {
    var ms := ns[k := n];
    assert ms[k] == n;
    forall p | Occupied(ns, p) && p != ns[k].pos
      ensures Occupied(ms, p)
    {
      var i :| 0 <= i < |ns| && ns[i].pos == p;
      assert ms[i].pos == p;
    }
    forall p | Occupied(ms, p)
      ensures (Occupied(ns, p) && p != ns[k].pos) || p == n.pos
    {
      var i :| 0 <= i < |ms| && ms[i].pos == p;
      if i != k { assert ns[i].pos == p; }
    }
  }

  lemma SwapUpdates(s: seq<int>, i: int, x: int, j: int, y: int)
    requires 0 <= i < |s| && 0 <= j < |s| && i != j
    ensures s[i := x][j := y] == s[j := y][i := x]
  {
  }

  lemma BlankAt(ns: seq<Node>, size: int, d1: seq<int>, d2: seq<int>, nx: seq<int>, p: int)
    requires Stored(ns, size, d1, d2, nx) && 0 <= p < size && !Occupied(ns, p)
    ensures |d1| == |d2| == |nx| == size && d1[p] == -1 && d2[p] == -1
  {
  }

  /** The slot after an inner number is free. */
  lemma InsideFree(ns: seq<Node>, size: int, k: nat, s: int)
    requires k < |ns| && Chain(ns, -1) && Fits(ns, size) && ns[k].lo <= s < ns[k].hi
    ensures var loc := Move(ns[0].pos, s + 1 - ns[0].lo, size);
            0 <= loc < size && !Occupied(ns, loc)
  {
    var loc, d := Move(ns[0].pos, s + 1 - ns[0].lo, size), s + 1 - ns[0].lo;
    forall i | 0 <= i < |ns|
      ensures ns[i].pos != loc
    {
      if i <= k {
        SlotsDiffer(ns[0].pos, ns[i].lo - ns[0].lo, d, size);
      } else {
        SlotsDiffer(ns[0].pos, d, ns[i].lo - ns[0].lo, size);
      }
    }
  }

  lemma EndMarkIs(lo: int, hi: int)
    ensures EndMark(lo, hi) == if lo == hi then -1 else Wrap(hi)
  {
  }
}
