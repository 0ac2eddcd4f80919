/** The cyclic doubly linked lists of inodes of the cache queues (src/params.h, src/util.c, src/clock.c). */
module InodeRing {
  class Inode {
    const fname: string
    var freq: int
    var refBit: int
    var next: Inode?
    var prev: Inode?

    constructor (fname: string)
      ensures this.fname == fname
    {
      this.fname := fname;
      freq, refBit := 0, 0;
      next, prev := null, null;
    }
  }

  /** The place after i, and the one before it, going round. */
  function After(i: nat, n: nat): (j: nat)
    requires i < n
    ensures j < n
  {
    if i + 1 < n then i + 1 else 0
  }

  function Before(i: nat, n: nat): (j: nat)
    requires i < n
    ensures j < n
  {
    if i == 0 then n - 1 else i - 1
  }

  ghost function NodesOf(ring: seq<Inode>): set<Inode> {
    set x | x in ring
  }

  ghost predicate Distinct(ring: seq<Inode>) {
    forall i, j :: 0 <= i < j < |ring| ==> ring[i] != ring[j]
  }

  lemma FirstIsNotAgain(ring: seq<Inode>)
    requires Distinct(ring)
    ensures forall j :: 0 < j < |ring| ==> ring[j] != ring[0]
  {
  }

  /** The links lead once around, both ways. */
  ghost predicate Cycle(ring: seq<Inode>)
    reads ring`next, ring`prev
  {
    && (forall i {:trigger ring[i].next} :: 0 <= i < |ring| ==> ring[i].next == ring[After(i, |ring|)])
    && (forall i {:trigger ring[i].prev} :: 0 <= i < |ring| ==> ring[i].prev == ring[Before(i, |ring|)])
  }

  ghost predicate Ring(ring: seq<Inode>)
    reads ring`next, ring`prev
  {
    Distinct(ring) && Cycle(ring)
  }

  lemma LinksAt(ring: seq<Inode>, i: nat)
    requires Cycle(ring) && i < |ring|
    ensures ring[i].next == ring[After(i, |ring|)] && ring[i].prev == ring[Before(i, |ring|)]
  {
  }

  /** A ring read from another place on is the same ring. */
  lemma Turned(ring: seq<Inode>, k: nat)
    requires Ring(ring) && k <= |ring|
    ensures Ring(ring[k..] + ring[..k]) && |ring[k..] + ring[..k]| == |ring|
    ensures forall x :: x in ring[k..] + ring[..k] <==> x in ring
  {
    var r, n := ring[k..] + ring[..k], |ring|;
    forall i {:trigger r[i].next} | 0 <= i < n
      ensures r[i].next == r[After(i, n)]
    {
      LinksAt(ring, if i < n - k then i + k else i + k - n);
    }
    forall i {:trigger r[i].prev} | 0 <= i < n
      ensures r[i].prev == r[Before(i, n)]
    {
      LinksAt(ring, if i < n - k then i + k else i + k - n);
    }
    assert ring == ring[..k] + ring[k..];
  }

  /** A first inode is its own neighbour. */
  method LinkAlone(elem: Inode)
    modifies elem`next, elem`prev
    ensures Ring([elem])
  {
    elem.next := elem;
    elem.prev := elem;
  }

  /** elem is linked in between the last inode of the ring and the first. */
  method LinkEnd(elem: Inode, last: Inode, first: Inode, ghost ring: seq<Inode>)
    requires Ring(ring) && ring != [] && elem !in ring && last == ring[|ring| - 1] && first == ring[0]
    modifies elem`next, elem`prev, last`next, first`prev
    ensures Ring(ring + [elem])
  {
    hide Distinct, Cycle;
    Nexts(ring);
    EndsApart(ring);
    last.next := elem;
    elem.next := first;
    first.prev := elem;
    elem.prev := last;
    LongerRing(ring, elem);
  }

  lemma EndsApart(ring: seq<Inode>)
    requires Distinct(ring) && ring != []
    ensures forall i :: 0 <= i < |ring| - 1 ==> ring[i] != ring[|ring| - 1]
    ensures forall i :: 0 < i < |ring| ==> ring[i] != ring[0]
  {
  }

  /** The first inode of the ring is linked out; more are left. */
  method Unlink(elem: Inode, ghost ring: seq<Inode>)
    requires Ring(ring) && |ring| > 1 && elem == ring[0]
    modifies NodesOf(ring)`next, NodesOf(ring)`prev
    ensures Ring(ring[1..])
    ensures forall x :: x in ring[1..] <==> x in ring && x != elem
  {
    Nexts(ring);
    LinksAt(ring, 0);
    var prev, next := elem.prev, elem.next;
    prev.next := next;
    next.prev := prev;
    ShorterRing(ring);
  }

  /** The links as pairs of neighbours. */
  lemma Nexts(ring: seq<Inode>)
    requires Ring(ring) && ring != []
    ensures Straight(ring)
    ensures ring[|ring| - 1].next == ring[0] && ring[0].prev == ring[|ring| - 1]
  {
    forall i, j | 0 <= i < j < |ring| && j == i + 1
      ensures ring[i].next == ring[j] && ring[j].prev == ring[i]
    {
      LinksAt(ring, i);
      LinksAt(ring, j);
    }
    LinksAt(ring, 0);
    LinksAt(ring, |ring| - 1);
  }

  ghost predicate Straight(ring: seq<Inode>)
    reads ring`next, ring`prev
  {
    forall i, j :: 0 <= i < j < |ring| && j == i + 1 ==> ring[i].next == ring[j] && ring[j].prev == ring[i]
  }

  lemma StraightIsCycle(ring: seq<Inode>)
    requires ring != [] && Straight(ring) && ring[|ring| - 1].next == ring[0] && ring[0].prev == ring[|ring| - 1]
    ensures Cycle(ring)
  {
    forall i {:trigger ring[i].next} | 0 <= i < |ring|
      ensures ring[i].next == ring[After(i, |ring|)]
    {
      var j := i + 1;
      assert j < |ring| ==> ring[i].next == ring[j];
    }
    forall i {:trigger ring[i].prev} | 0 <= i < |ring|
      ensures ring[i].prev == ring[Before(i, |ring|)]
    {
      var j := i - 1;
      assert j >= 0 ==> ring[i].prev == ring[j];
    }
  }

  lemma LongerRing(ring: seq<Inode>, elem: Inode)
    requires ring != [] && Distinct(ring) && elem !in ring && Straight(ring)
    requires ring[|ring| - 1].next == elem && elem.next == ring[0] && ring[0].prev == elem
        && elem.prev == ring[|ring| - 1]
    ensures Ring(ring + [elem])
  {
    StraightIsCycle(ring + [elem]);
  }

  lemma ShorterRing(ring: seq<Inode>)
    requires |ring| > 1 && Distinct(ring)
    requires Straight(ring[1..]) && ring[|ring| - 1].next == ring[1] && ring[1].prev == ring[|ring| - 1]
    ensures Ring(ring[1..])
    ensures forall x :: x in ring[1..] <==> x in ring && x != ring[0]
  {
    StraightIsCycle(ring[1..]);
    assert ring == [ring[0]] + ring[1..];
  }

  lemma Closed(ring: seq<Inode>, i: nat)
    requires i < |ring| && Ring((ring[i..] + ring[..i])[1..])
    ensures Ring(ring[..i] + ring[i + 1..])
  {
    var r := (ring[i..] + ring[..i])[1..];
    var k := |ring| - 1 - i;
    Turned(r, k);
    assert r[k..] + r[..k] == ring[..i] + ring[i + 1..];
  }

  /** remque: the inode is linked out, wherever it is; more are left. */
  method Remque(elem: Inode, ghost ring: seq<Inode>, ghost i: nat)
    requires Ring(ring) && |ring| > 1 && i < |ring| && elem == ring[i]
    modifies NodesOf(ring)`next, NodesOf(ring)`prev
    ensures Ring(ring[..i] + ring[i + 1..])
  {
    hide Ring;
    Turned(ring, i);
    Unlink(elem, ring[i..] + ring[..i]);
    Closed(ring, i);
  }

  /** insque: elem is linked in behind pred. */
  method Insque(elem: Inode, pred: Inode, ghost ring: seq<Inode>, ghost k: nat)
    requires Ring(ring) && 0 < k <= |ring| && pred == ring[k - 1] && elem !in ring
    modifies elem`next, elem`prev, NodesOf(ring)`next, NodesOf(ring)`prev
    ensures Ring(ring[..k] + [elem] + ring[k..])
  {
    hide Ring;
    ghost var r := ring[k..] + ring[..k];
    Turned(ring, k);
    Nexts(r);
    var next := pred.next;
    LinkEnd(elem, pred, next, r);
    Turned(r + [elem], |ring| - k);
    assert (r + [elem])[|ring| - k..] + (r + [elem])[..|ring| - k] == ring[..k] + [elem] + ring[k..];
  }

  lemma NoRing()
    ensures Ring([])
  {
  }

  lemma Neighbours(ring: seq<Inode>, i: nat)
    requires Ring(ring) && i < |ring|
    ensures ring[i].next == ring[After(i, |ring|)] && ring[i].prev == ring[Before(i, |ring|)]
    ensures ring[i].next == ring[i] <==> |ring| == 1
    ensures forall j :: 0 <= j < |ring| && j != i ==> ring[j] != ring[i]
  {
  }
}
