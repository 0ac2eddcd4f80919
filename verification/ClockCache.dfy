/**
 The Clock eviction queue (src/clock.c): a cyclic list of files with reference bits and a hand, the victim
 pointer. The abstract queue is the list read from the hand on.
 */
module ClockCache {
  import opened InodeRing

  datatype Entry = Entry(fname: string, referenced: bool)

  // ----- the queue as a value -----

  function Names(q: seq<Entry>): (ns: seq<string>)
    ensures |ns| == |q| && forall i :: 0 <= i < |q| ==> ns[i] == q[i].fname
  {
    seq(|q|, i requires 0 <= i < |q| => q[i].fname)
  }

  ghost predicate Unique(q: seq<Entry>) {
    forall i, j :: 0 <= i < j < |q| ==> q[i].fname != q[j].fname
  }

  /** insque_clock: a file that is there is marked, a new one goes last before the hand comes round again. */
  function Insert(q: seq<Entry>, f: string): (q': seq<Entry>)
  {
    if f in Names(q) then seq(|q|, i requires 0 <= i < |q| => if q[i].fname == f then Entry(f, true) else q[i])
    else q + [Entry(f, true)]
  }

  function Clear(q: seq<Entry>): (q': seq<Entry>)
    ensures |q'| == |q| && forall i :: 0 <= i < |q| ==> q'[i] == Entry(q[i].fname, false)
  {
    seq(|q|, i requires 0 <= i < |q| => Entry(q[i].fname, false))
  }

  /** The place of the first entry whose bit is clear, or the length if there is none. */
  function FirstClear(q: seq<Entry>): (k: nat)
    ensures k <= |q| && (k < |q| ==> !q[k].referenced) && forall i :: 0 <= i < k ==> q[i].referenced
  {
    if q == [] then 0 else if !q[0].referenced then 0 else 1 + FirstClear(q[1..])
  }

  /** The queue as the sweep leaves it: the hand has passed the marked entries and cleared them. */
  function Swept(q: seq<Entry>): seq<Entry> {
    q[FirstClear(q)..] + Clear(q[..FirstClear(q)])
  }

  /** remque_clock: the evicted file and what stays. A single file goes whatever its bit says. */
  function Evict(q: seq<Entry>): (string, seq<Entry>)
    requires q != []
  {
    if |q| == 1 then (q[0].fname, []) else (Swept(q)[0].fname, Swept(q)[1..])
  }

  /** The eviction takes the first clear entry from the hand on, or the hand's own when all are marked. */
  lemma EvictsFirstClear(q: seq<Entry>)
    requires q != []
    ensures var k := FirstClear(q);
            && Evict(q).0 == q[if k < |q| then k else 0].fname
            && Names(Evict(q).1) == if k < |q| then Names(q)[k + 1..] + Names(q)[..k] else Names(q)[1..]
  {
    if |q| == 1 {
      OneEvicted(q);
    } else {
      ManyEvicted(q);
    }
  }

  lemma OneEvicted(q: seq<Entry>)
    requires |q| == 1
    ensures var k := FirstClear(q);
            && k <= 1 && Evict(q).0 == q[0].fname
            && Names(Evict(q).1) == if k < 1 then Names(q)[k + 1..] + Names(q)[..k] else Names(q)[1..]
  {
    assert FirstClear(q) == 0 ==> Names(q)[..0] == [];
  }

  lemma ManyEvicted(q: seq<Entry>)
    requires |q| > 1
    ensures var k := FirstClear(q);
            && Evict(q).0 == q[if k < |q| then k else 0].fname
            && Names(Evict(q).1) == if k < |q| then Names(q)[k + 1..] + Names(q)[..k] else Names(q)[1..]
  {
    hide FirstClear, Swept, Names;
    SweptNames(q);
    TurnedBy(Names(q), FirstClear(q));
    assert forall i :: 0 <= i < |q| ==> Names(q)[i] == q[i].fname;
  }

  lemma TurnedBy(ns: seq<string>, k: nat)
    requires k <= |ns| && ns != []
    ensures (ns[k..] + ns[..k])[0] == ns[if k < |ns| then k else 0]
    ensures (ns[k..] + ns[..k])[1..] == if k < |ns| then ns[k + 1..] + ns[..k] else ns[1..]
  {
    if k == |ns| { assert ns[k..] + ns[..k] == ns; }
  }

  lemma SweptNames(q: seq<Entry>)
    requires q != []
    ensures |Swept(q)| == |q| && Names(Swept(q)) == Names(q)[FirstClear(q)..] + Names(q)[..FirstClear(q)]
    ensures Names(Swept(q)[1..]) == Names(Swept(q))[1..] && Swept(q)[0].fname == Names(Swept(q))[0]
  {
    hide FirstClear;
  }

  // ----- a file leaves -----

  /** The queue without one file. */
  function Without(q: seq<Entry>, f: string): seq<Entry> {
    if q == [] then []
    else if q[0].fname == f then q[1..]
    else [q[0]] + Without(q[1..], f)
  }

  lemma {:induction false} WithoutAt(q: seq<Entry>, i: nat)
    requires Unique(q) && i < |q|
    ensures Without(q, q[i].fname) == q[..i] + q[i + 1..]
    decreases i
  {
    if i > 0 {
      assert q[0].fname != q[i].fname;
      WithoutAt(q[1..], i - 1);
      assert [q[0]] + (q[1..][..i - 1] + q[1..][i..]) == q[..i] + q[i + 1..];
    }
  }

  lemma {:induction false} WithoutAbsent(q: seq<Entry>, f: string)
    requires forall i :: 0 <= i < |q| ==> q[i].fname != f
    ensures Without(q, f) == q
    decreases |q|
  {
    if q != [] {
      WithoutAbsent(q[1..], f);
    }
  }

  lemma WithoutNone(q: seq<Entry>, f: string)
    requires f !in Names(q)
    ensures Without(q, f) == q
  {
    hide Without;
    assert forall i :: 0 <= i < |q| ==> Names(q)[i] == q[i].fname;
    WithoutAbsent(q, f);
  }

  lemma FewerUnique(q: seq<Entry>, i: nat)
    requires i < |q| && Unique(q)
    ensures Unique(q[..i] + q[i + 1..])
  {
  }

  lemma NamesWithout(q: seq<Entry>, i: nat)
    requires Unique(q) && i < |q|
    ensures Names(Without(q, q[i].fname)) == Names(q)[..i] + Names(q)[i + 1..]
    ensures Unique(Without(q, q[i].fname))
  {
    hide Unique, Without, Names;
    WithoutAt(q, i);
    FewerUnique(q, i);
    NamesPast(q, i);
  }

  lemma NamesPast(q: seq<Entry>, i: nat)
    requires i < |q|
    ensures Names(q[..i] + q[i + 1..]) == Names(q)[..i] + Names(q)[i + 1..]
  {
  }

  // ----- first in, first out -----

  datatype ClockEvent = Insertion(f: string) | Eviction | Removal(f: string)

  /** The files in the order they came in, which of these were removed by name, the files evicted, and the queue. */
  datatype History = History(inserted: seq<string>, removed: set<nat>, evicted: seq<string>, q: seq<Entry>)

  /** When a file last came in, or -1. */
  function LastIn(inserted: seq<string>, f: string): (p: int)
    ensures -1 <= p < |inserted| && (p >= 0 ==> inserted[p] == f)
    ensures f in inserted ==> p >= 0
  {
    if inserted == [] then -1
    else if inserted[|inserted| - 1] == f then |inserted| - 1
    else LastIn(inserted[..|inserted| - 1], f)
  }

  function Happen(h: History, e: ClockEvent): History {
    match e
    case Insertion(f) =>
      h.(inserted := if f in Names(h.q) then h.inserted else h.inserted + [f], q := Insert(h.q, f))
    case Eviction => if h.q == [] then h else h.(evicted := h.evicted + [Evict(h.q).0], q := Evict(h.q).1)
    case Removal(f) =>
      if f in Names(h.q) && f in h.inserted then
        h.(removed := h.removed + {LastIn(h.inserted, f)}, q := Without(h.q, f))
      else
        h.(q := Without(h.q, f))
  }

  function HappenAll(h: History, es: seq<ClockEvent>): History
    decreases |es|
  {
    if es == [] then h else HappenAll(Happen(h, es[0]), es[1..])
  }

  /** No file is referenced again while it is in the queue. It may come back after it has left. */
  ghost predicate NoRepeats(h: History, es: seq<ClockEvent>)
    decreases |es|
  {
    es != [] ==>
      && (es[0].Insertion? ==> es[0].f !in Names(h.q))
      && NoRepeats(Happen(h, es[0]), es[1..])
  }

  /** The files that came in, in order, without those removed. */
  function Kept(inserted: seq<string>, removed: set<nat>): seq<string> {
    if inserted == [] then []
    else
      var n := |inserted| - 1;
      Kept(inserted[..n], removed) + if n in removed then [] else [inserted[n]]
  }

  ghost predicate ClearThenMarked(q: seq<Entry>, m: int) {
    && 0 <= m <= |q|
    && (forall i :: 0 <= i < m ==> !q[i].referenced)
    && (forall i :: m <= i < |q| ==> q[i].referenced)
  }

  /** The removed files are not those in the queue, although they may have the same names. */
  ghost predicate Present(h: History) {
    && (forall p :: p in h.removed ==> p < |h.inserted|)
    && (forall f :: f in Names(h.q) ==> f in h.inserted && LastIn(h.inserted, f) !in h.removed)
  }

  /** From the hand on the entries lie in the order of insertion, clear ones before marked ones. */
  ghost predicate Fifo(h: History) {
    && Unique(h.q) && Present(h)
    && Kept(h.inserted, h.removed) == h.evicted + Names(h.q)
    && exists m :: ClearThenMarked(h.q, m)
  }

  lemma {:induction false} KeptLater(inserted: seq<string>, removed: set<nat>, p: nat)
    requires p >= |inserted|
    ensures Kept(inserted, removed + {p}) == Kept(inserted, removed)
    decreases |inserted|
  {
    if inserted != [] {
      KeptLater(inserted[..|inserted| - 1], removed, p);
    }
  }

  /** A file that is removed leaves a gap where it came in last. */
  lemma {:induction false} KeptWithout(inserted: seq<string>, removed: set<nat>, f: string)
      returns (before: seq<string>, after: seq<string>)
    requires f in inserted && LastIn(inserted, f) !in removed
    ensures Kept(inserted, removed) == before + [f] + after && f !in after
    ensures Kept(inserted, removed + {LastIn(inserted, f)}) == before + after
    decreases |inserted|
  {
    var n, p := |inserted| - 1, LastIn(inserted, f);
    if inserted[n] == f {
      before, after := Kept(inserted[..n], removed), [];
      KeptLater(inserted[..n], removed, n);
    } else {
      var rest;
      before, rest := KeptWithout(inserted[..n], removed, f);
      after := rest + if n in removed then [] else [inserted[n]];
    }
  }

  /** A sequence splits in one way around the last place of f. */
  lemma SplitOnce(a: seq<string>, b: seq<string>, c: seq<string>, d: seq<string>, f: string)
    requires a + [f] + b == c + [f] + d && f !in b && f !in d
    ensures a == c && b == d
  {
    if |a| < |c| {
      Behind(a, b, c, d, f);
    } else if |c| < |a| {
      Behind(c, d, a, b, f);
    } else {
      var s := a + [f] + b;
      assert s[..|a|] == a && s[..|c|] == c && s[|a| + 1..] == b && s[|c| + 1..] == d;
    }
  }

  lemma Behind(a: seq<string>, b: seq<string>, c: seq<string>, d: seq<string>, f: string)
    requires a + [f] + b == c + [f] + d && |a| < |c|
    ensures f in b
  {
    assert b[|c| - |a| - 1] == (a + [f] + b)[|c|] == (c + [f] + d)[|c|];
  }

  lemma InsertionKeepsFifo(h: History, f: string)
    requires Fifo(h) && f !in Names(h.q)
    ensures Fifo(Happen(h, Insertion(f)))
  {
    hide Kept, Unique, Present;
    var q', ins := h.q + [Entry(f, true)], h.inserted + [f];
    NewcomerIsPresent(h, f);
    MoreNames(h.q, f, true);
    assert Names(q') == Names(h.q) + [f];
    KeptNewcomer(h.inserted, h.removed, f);
    assert h.evicted + (Names(h.q) + [f]) == (h.evicted + Names(h.q)) + [f];
    var m :| ClearThenMarked(h.q, m);
    assert ClearThenMarked(q', m);
  }

  lemma KeptNewcomer(inserted: seq<string>, removed: set<nat>, f: string)
    requires forall p :: p in removed ==> p < |inserted|
    ensures Kept(inserted + [f], removed) == Kept(inserted, removed) + [f]
  {
    assert (inserted + [f])[..|inserted|] == inserted;
  }

  lemma NewcomerIsPresent(h: History, f: string)
    requires Present(h) && f !in Names(h.q)
    ensures Present(Happen(h, Insertion(f))) && forall p :: p in h.removed ==> p < |h.inserted|
  {
    var ins := h.inserted + [f];
    assert ins[..|h.inserted|] == h.inserted;
    forall g | g in Names(h.q + [Entry(f, true)])
      ensures g in ins && LastIn(ins, g) !in h.removed
    {
      if g != f {
        var i :| 0 <= i <= |h.q| && Names(h.q + [Entry(f, true)])[i] == g;
        assert Names(h.q)[i] == g;
      }
    }
  }

  lemma EvictionKeepsFifo(h: History)
    requires Fifo(h) && h.q != []
    ensures Fifo(Happen(h, Eviction)) && Evict(h.q).0 == h.q[0].fname
  {
    hide Kept, LastIn, Evict, Unique, Names, ClearThenMarked;
    var m :| ClearThenMarked(h.q, m);
    var rest := Evict(h.q).1;
    FirstOut(h.q, m);
    FewerStay(h.q, rest);
    assert h.evicted + ([h.q[0].fname] + Names(h.q)[1..]) == (h.evicted + [h.q[0].fname]) + Names(h.q)[1..];
  }

  lemma FewerStay(q: seq<Entry>, rest: seq<Entry>)
    requires Unique(q) && q != [] && Names(rest) == Names(q)[1..]
    ensures Unique(rest) && Names(q) == [q[0].fname] + Names(rest) && forall f :: f in Names(rest) ==> f in Names(q)
  {
    assert forall i :: 0 <= i < |rest| ==> rest[i].fname == Names(rest)[i] == q[i + 1].fname;
  }

  lemma FirstOut(q: seq<Entry>, m: int)
    requires q != [] && ClearThenMarked(q, m)
    ensures Evict(q).0 == q[0].fname && Names(Evict(q).1) == Names(q)[1..]
    ensures ClearThenMarked(Evict(q).1, if m > 0 then m - 1 else |q| - 1)
  {
    var k := FirstClear(q);
    EvictsFirstClear(q);
    assert k == if m > 0 then 0 else |q|;
    assert Names(q)[1..] + Names(q)[..0] == Names(q)[1..];
  }

  lemma RemovalKeepsFifo(h: History, f: string)
    requires Fifo(h)
    ensures Fifo(Happen(h, Removal(f)))
  {
    hide Kept, LastIn, Unique, Without, Present, Names, ClearThenMarked;
    if f !in Names(h.q) {
      WithoutNone(h.q, f);
    } else {
      var i :| 0 <= i < |h.q| && Names(h.q)[i] == f;
      RemovedIsPresent(h, i);
      NamesWithout(h.q, i);
      RemovedFromKept(h, i);
      var m :| ClearThenMarked(h.q, m);
      PatternWithout(h.q, m, i);
    }
  }

  lemma RemovedFromKept(h: History, i: nat)
    requires Unique(h.q) && Kept(h.inserted, h.removed) == h.evicted + Names(h.q) && i < |h.q|
    requires h.q[i].fname in h.inserted && LastIn(h.inserted, h.q[i].fname) !in h.removed
    ensures Kept(h.inserted, h.removed + {LastIn(h.inserted, h.q[i].fname)}) ==
            h.evicted + (Names(h.q)[..i] + Names(h.q)[i + 1..])
  {
    hide Kept, LastIn, Unique;
    var ns, f := Names(h.q), h.q[i].fname;
    var before, after := KeptWithout(h.inserted, h.removed, f);
    RemovedName(h.q, i);
    assert before + [f] + after == (h.evicted + ns[..i]) + [f] + ns[i + 1..];
    SplitOnce(before, after, h.evicted + ns[..i], ns[i + 1..], f);
    assert (h.evicted + ns[..i]) + ns[i + 1..] == h.evicted + (ns[..i] + ns[i + 1..]);
  }

  lemma PatternWithout(q: seq<Entry>, m: int, i: nat)
    requires Unique(q) && ClearThenMarked(q, m) && i < |q|
    ensures ClearThenMarked(Without(q, q[i].fname), if i < m then m - 1 else m)
  {
    hide Unique, Without;
    WithoutAt(q, i);
  }

  lemma RemovedName(q: seq<Entry>, i: nat)
    requires Unique(q) && i < |q|
    ensures Names(q) == Names(q)[..i] + [q[i].fname] + Names(q)[i + 1..] && q[i].fname !in Names(q)[i + 1..]
  {
  }

  lemma RemovedIsPresent(h: History, i: nat)
    requires Present(h) && Unique(h.q) && i < |h.q|
    ensures h.q[i].fname in h.inserted && LastIn(h.inserted, h.q[i].fname) !in h.removed
    ensures Present(Happen(h, Removal(h.q[i].fname)))
  {
    hide LastIn, Without;
    var f := h.q[i].fname;
    assert Names(h.q)[i] == f;
    NamesWithout(h.q, i);
    forall g | g in Names(Without(h.q, f))
      ensures g in Names(h.q) && g != f
    {
      var k :| 0 <= k < |h.q| - 1 && (Names(h.q)[..i] + Names(h.q)[i + 1..])[k] == g;
      assert g == Names(h.q)[if k < i then k else k + 1];
    }
  }

  lemma {:induction false} EvictsInOrder(h: History, es: seq<ClockEvent>)
    requires Fifo(h) && NoRepeats(h, es)
    ensures Fifo(HappenAll(h, es))
    decreases |es|
  {
    hide Fifo, Happen;
    if es != [] {
      match es[0] {
        case Insertion(f) => InsertionKeepsFifo(h, f);
        case Removal(f) => RemovalKeepsFifo(h, f);
        case Eviction => NothingOrFirst(h);
      }
      EvictsInOrder(Happen(h, es[0]), es[1..]);
    }
  }

  lemma NothingOrFirst(h: History)
    requires Fifo(h)
    ensures Fifo(Happen(h, Eviction))
  {
    hide Fifo;
    if h.q != [] {
      EvictionKeepsFifo(h);
    }
  }

  /**
   Without repeated references the files evicted are those that came in, in that order, less those removed by
   name; the ones still to come lie in the queue in the same order.
   */
  lemma FirstInFirstOut(es: seq<ClockEvent>)
    requires NoRepeats(History([], {}, [], []), es)
    ensures var h := HappenAll(History([], {}, [], []), es);
            Kept(h.inserted, h.removed) == h.evicted + Names(h.q)
  {
    assert ClearThenMarked([], 0);
    EvictsInOrder(History([], {}, [], []), es);
  }

  // ----- the sweep, one step at a time -----

  /** The hand passes a marked entry and clears it. */
  lemma SweepStep(q: seq<Entry>)
    requires q != [] && q[0].referenced
    ensures var q' := q[1..] + [Entry(q[0].fname, false)];
            Swept(q) == Swept(q') && FirstClear(q') == FirstClear(q) - 1
  {
    var q', k := q[1..] + [Entry(q[0].fname, false)], FirstClear(q);
    FirstClearIs(q', k - 1);
    PassedCleared(q, k);
  }

  lemma PassedCleared(q: seq<Entry>, k: nat)
    requires 0 < k <= |q|
    ensures var q' := q[1..] + [Entry(q[0].fname, false)];
            q[k..] + Clear(q[..k]) == q'[k - 1..] + Clear(q'[..k - 1])
  {
    var n, q' := |q|, q[1..] + [Entry(q[0].fname, false)];
    var a, b := q[k..] + Clear(q[..k]), q'[k - 1..] + Clear(q'[..k - 1]);
    assert |a| == n && |b| == n;
    forall i | 0 <= i < n
      ensures a[i] == b[i]
    {
      if i < n - k {
        assert b[i] == q'[k - 1 + i];
      } else if i > n - k {
        assert a[i] == Clear(q[..k])[i - (n - k)];
        assert b[i] == Clear(q'[..k - 1])[i - (n - k) - 1];
      }
    }
  }

  lemma {:induction false} FirstClearIs(q: seq<Entry>, k: nat)
    requires k < |q| && !q[k].referenced && forall i :: 0 <= i < k ==> q[i].referenced
    ensures FirstClear(q) == k
    decreases k
  {
    if k > 0 {
      FirstClearIs(q[1..], k - 1);
    }
  }

  lemma SweepDone(q: seq<Entry>)
    requires q != [] && !q[0].referenced
    ensures Swept(q) == q
  {
  }

  // ----- the queue in memory -----

  function EntriesOf(ring: seq<Inode>): (q: seq<Entry>)
    reads ring`refBit
    ensures |q| == |ring| && forall i :: 0 <= i < |ring| ==> q[i] == Entry(ring[i].fname, ring[i].refBit != 0)
  {
    if ring == [] then []
    else EntriesOf(ring[..|ring| - 1]) + [Entry(ring[|ring| - 1].fname, ring[|ring| - 1].refBit != 0)]
  }

  class ClockQueue {
    var head: Inode?
    var tail: Inode?
    var victim: Inode?

    /** The inodes from the hand on: from the victim, or from the head while there is no victim. */
    ghost var ring: seq<Inode>
    /** Where the head is in it. */
    ghost var h: nat

    /** The pointers for a ring with its head at h. */
    ghost predicate EndsOf(r: seq<Inode>, h: nat)
      reads this`head, this`tail, this`victim
    {
      && (r == [] ==> head == null && tail == null && victim == null)
      && (r != [] ==> h < |r| && head == r[h] && tail == r[Before(h, |r|)])
      && (r != [] ==> victim == r[0] || (victim == null && h == 0))
    }

    ghost predicate Valid()
      reads this, ring
    {
      EndsOf(ring, h) && Ring(ring) && Unique(EntriesOf(ring))
    }

    constructor ()
      ensures Valid() && ring == []
    {
      head, tail, victim, ring, h := null, null, null, [], 0;
    }

    /** findelem_clock: the inode of a file, looked for once around from the head. */
    method Find(fname: string) returns (found: Inode?)
      requires Valid()
      ensures found == null <==> fname !in Names(EntriesOf(ring))
      ensures found != null ==> found in ring && found.fname == fname
    {
      hide Unique, EntriesOf;
      if head == null {
        return null;
      }
      var curr := head;
      ghost var all, k := ring[h..] + ring[..h], 0;
      Turned(ring, h);
      while true
        invariant 0 <= k < |all| && curr == all[k] && Ring(all)
        invariant forall i :: 0 <= i < k ==> all[i].fname != fname
        decreases |all| - k
      {
        if curr.fname == fname {
          Named(ring, curr);
          return curr;
        }
        LinksAt(all, k);
        curr := curr.next;
        if curr == head {
          WholeTurn(all, k);
          break;
        }
        k := k + 1;
      }
      NotNamed(ring, all, fname);
      return null;
    }

    // ----- insert -----

    /** ins_Q: the new inode goes before the victim, or behind the tail while there is no victim. */
    method InsertNew(elem: Inode)
      requires Valid() && ring != [] && elem !in ring && elem.fname !in Names(EntriesOf(ring))
      modifies this`head, this`tail, this`ring, this`h, elem`next, elem`prev, NodesOf(ring)`next, NodesOf(ring)`prev
      ensures Valid() && ring == old(ring) + [elem]
    {
      hide EntriesOf, Unique, Ring;
      MoreNames(EntriesOf(ring), elem.fname, elem.refBit != 0);
      EntriesMore(ring, elem);
      if victim != null {
        InsertAtHand(elem);
      } else {
        LinkEnd(elem, tail, head, ring);
        tail := elem;
        ring := ring + [elem];
      }
    }

    /** The new inode comes just before the hand, and is the new head when the hand is on the head. */
    method InsertAtHand(elem: Inode)
      requires EndsOf(ring, h) && Ring(ring) && ring != [] && elem !in ring && victim != null
      modifies this`head, this`ring, this`h, elem`next, elem`prev, NodesOf(ring)`next, NodesOf(ring)`prev
      ensures EndsOf(ring, h) && Ring(ring) && ring == old(ring) + [elem]
    {
      hide Ring;
      Nexts(ring);
      HeadMoves(ring, h);
      ghost var n := |ring|;
      if victim == head {
        head := elem;
      }
      LinkEnd(elem, victim.prev, victim, ring);
      h := if h == 0 then n else h;
      ring := ring + [elem];
    }

    /** insque_clock: marks the file if it is there, else lets it in marked. */
    method Insque(fname: string)
      requires Valid()
      modifies this`head, this`tail, this`ring, this`h, NodesOf(ring)
      ensures Valid() && EntriesOf(ring) == Insert(old(EntriesOf(ring)), fname)
      ensures fresh(NodesOf(ring) - old(NodesOf(ring)))
    {
      hide EntriesOf, Unique, Ring, Insert, Names;
      var found := Find(fname);
      if found != null {
        Named(ring, found);
        MarkFound(found);
      } else {
        NewName(EntriesOf(ring), fname);
        LetIn(fname);
      }
    }

    /** A new file comes in, marked. */
    method LetIn(fname: string)
      requires Valid() && fname !in Names(EntriesOf(ring))
      modifies this`head, this`tail, this`ring, this`h, NodesOf(ring)
      ensures Valid() && EntriesOf(ring) == old(EntriesOf(ring)) + [Entry(fname, true)]
      ensures fresh(NodesOf(ring) - old(NodesOf(ring)))
    {
      hide EntriesOf, Unique, Ring, Names;
      var elem := new Inode(fname);
      elem.refBit := 1;
      EntriesMore(ring, elem);
      if head == null {
        FirstIn(elem);
      } else {
        InsertNew(elem);
      }
    }

    method MarkFound(found: Inode)
      requires Valid() && found in ring && found.fname in Names(EntriesOf(ring))
      modifies found`refBit
      ensures Valid() && EntriesOf(ring) == Insert(old(EntriesOf(ring)), found.fname)
    {
      hide Ring;
      ghost var q := EntriesOf(ring);
      found.refBit := 1;
      MarkedAre(ring, found, q);
    }

    method FirstIn(elem: Inode)
      requires Valid() && ring == []
      modifies this`head, this`tail, this`ring, this`h, elem`next, elem`prev
      ensures Valid() && ring == [elem]
    {
      LinkAlone(elem);
      head := elem;
      tail := elem;
      ring := [elem];
      h := 0;
    }

    // ----- remove and evict -----

    /** rem_Q: the inode leaves the list; the hand, the head and the tail step aside when they are on it. */
    method RemQ(elem: Inode, ghost i: nat)
      requires Valid() && i < |ring| && ring[i] == elem
      modifies this`head, this`tail, this`victim, this`ring, this`h, NodesOf(ring)`next, NodesOf(ring)`prev
      ensures Valid() && ring == old(ring)[..i] + old(ring)[i + 1..]
    {
      hide EntriesOf, Unique, Ring;
      Neighbours(ring, i);
      if elem == elem.next {
        victim, head, tail := null, null, null;
        assert ring[..i] + ring[i + 1..] == [];
        FewerNames(ring, i);
        NoRing();
        ring := [];
      } else {
        StepAside(elem, i);
        LinkOut(elem, i);
      }
    }

    /** The first half of rem_Q: no pointer stays on the inode. */
    method StepAside(elem: Inode, ghost i: nat)
      requires Valid() && |ring| > 1 && i < |ring| && ring[i] == elem
      modifies this`head, this`tail, this`victim
      ensures EndsOf(ring[..i] + ring[i + 1..], HeadAfter(h, i, |ring|))
    {
      hide EntriesOf, Unique, Ring, HeadAfter;
      EndsBeside(ring, h, i);
      if elem == head {
        head := elem.next;
      } else if elem == tail {
        tail := elem.prev;
      }
      if victim == elem {
        victim := elem.next;
      }
    }

    /** The second half: the neighbours close the gap. */
    method LinkOut(elem: Inode, ghost i: nat)
      requires |ring| > 1 && i < |ring| && ring[i] == elem && h < |ring| && Ring(ring) && Unique(EntriesOf(ring))
      requires EndsOf(ring[..i] + ring[i + 1..], HeadAfter(h, i, |ring|))
      modifies this`ring, this`h, NodesOf(ring)`next, NodesOf(ring)`prev
      ensures Valid() && ring == old(ring)[..i] + old(ring)[i + 1..]
    {
      hide EntriesOf, Unique, Ring;
      ghost var r0 := ring;
      FewerNames(r0, i);
      InodeRing.Remque(elem, r0, i);
      ring := r0[..i] + r0[i + 1..];
      h := HeadAfter(h, i, |r0|);
    }

    /** rmelem_clock: the file leaves the queue, wherever it is. */
    method Rmelem(fname: string)
      requires Valid()
      modifies this`head, this`tail, this`victim, this`ring, this`h, NodesOf(ring)`next, NodesOf(ring)`prev
      ensures Valid() && EntriesOf(ring) == Without(old(EntriesOf(ring)), fname)
      ensures NodesOf(ring) <= old(NodesOf(ring))
    {
      hide EntriesOf, Unique, Ring, Without;
      if head == null {
        NoEntries();
        WithoutNone([], fname);
        return;
      }
      var found := Find(fname);
      if found != null {
        RemoveFound(found);
      } else {
        WithoutNone(EntriesOf(ring), fname);
      }
    }

    method RemoveFound(found: Inode)
      requires Valid() && found in ring
      modifies this`head, this`tail, this`victim, this`ring, this`h, NodesOf(ring)`next, NodesOf(ring)`prev
      ensures Valid() && EntriesOf(ring) == Without(old(EntriesOf(ring)), found.fname)
      ensures NodesOf(ring) <= old(NodesOf(ring))
    {
      hide EntriesOf, Unique, Ring, Without;
      ghost var i :| 0 <= i < |ring| && ring[i] == found;
      FewerEntries(ring, i);
      EntryAt(ring, i);
      WithoutAt(EntriesOf(ring), i);
      RemQ(found, i);
    }

    /** The hand passes the inode it is on. */
    method PassHand()
      requires Valid() && |ring| > 1 && victim == ring[0]
      modifies this`victim, this`ring, this`h, victim`refBit
      ensures Valid() && victim == ring[0] && ring == old(ring)[1..] + [old(ring)[0]]
      ensures EntriesOf(ring) == old(EntriesOf(ring))[1..] + [Entry(old(ring)[0].fname, false)]
    {
      hide EntriesOf, Unique, Ring;
      ghost var r0, q: seq<Entry> := ring, EntriesOf(ring);
      Neighbours(r0, 0);
      Turned(r0, 1);
      TurnedEnds(r0, h);
      victim.refBit := 0;
      victim := victim.next;
      ring := r0[1..] + [r0[0]];
      assert r0[1..] + r0[..1] == ring;
      h := Before(h, |r0|);
      PassedEntries(r0, q);
      TurnedNames(q);
    }

    /** The loop of remque_clock: the hand moves on to a clear inode. */
    method Sweep()
      requires Valid() && |ring| > 1 && victim == ring[0]
      modifies this`victim, this`ring, this`h, NodesOf(ring)`refBit
      ensures Valid() && |ring| == |old(ring)| && victim == ring[0]
      ensures EntriesOf(ring) == Swept(old(EntriesOf(ring)))
      ensures NodesOf(ring) == old(NodesOf(ring))
    {
      hide EntriesOf, Unique, Ring, FirstClear, Swept;
      ghost var q, r0: seq<Inode> := EntriesOf(ring), ring;
      EntryAt(ring, 0);
      while victim.refBit != 0
        invariant Valid() && |ring| == |r0| && victim == ring[0]
        invariant NodesOf(ring) == NodesOf(r0)
        invariant Swept(EntriesOf(ring)) == Swept(q)
        decreases FirstClear(EntriesOf(ring))
      {
        EntryAt(ring, 0);
        SweepStep(EntriesOf(ring));
        TurnedOnce(ring);
        PassHand();
      }
      EntryAt(ring, 0);
      SweepDone(EntriesOf(ring));
    }

    /** The file at the hand goes. */
    method EvictHand() returns (fname: string)
      requires Valid() && ring != [] && victim == ring[0]
      modifies this`head, this`tail, this`victim, this`ring, this`h, NodesOf(ring)`next, NodesOf(ring)`prev
      ensures Valid() && fname == old(EntriesOf(ring))[0].fname && EntriesOf(ring) == old(EntriesOf(ring))[1..]
      ensures NodesOf(ring) <= old(NodesOf(ring))
    {
      hide EntriesOf, Unique, Ring;
      EntryAt(ring, 0);
      FewerEntries(ring, 0);
      assert EntriesOf(ring)[..0] + EntriesOf(ring)[1..] == EntriesOf(ring)[1..];
      fname := victim.fname;
      RemQ(victim, 0);
    }

    /** remque_clock: the sweep, and the file it evicts. */
    method Remque() returns (fname: string)
      requires Valid() && ring != []
      modifies this`head, this`tail, this`victim, this`ring, this`h, NodesOf(ring)
      ensures Valid() && fname == Evict(old(EntriesOf(ring))).0 && EntriesOf(ring) == Evict(old(EntriesOf(ring))).1
      ensures NodesOf(ring) <= old(NodesOf(ring))
    {
      hide EntriesOf, Unique, Ring, Swept;
      if victim == null {
        victim := head;
      }
      Neighbours(ring, 0);
      if victim != victim.next {
        Sweep();
      }
      fname := EvictHand();
    }
  }

  lemma NewName(q: seq<Entry>, f: string)
    requires f !in Names(q)
    ensures Insert(q, f) == q + [Entry(f, true)]
  {
  }

  lemma Named(ring: seq<Inode>, n: Inode)
    requires n in ring
    ensures n.fname in Names(EntriesOf(ring))
  {
    var i :| 0 <= i < |ring| && ring[i] == n;
    assert Names(EntriesOf(ring))[i] == n.fname;
  }

  lemma NotNamed(ring: seq<Inode>, all: seq<Inode>, f: string)
    requires forall x :: x in ring ==> x in all
    requires forall i :: 0 <= i < |all| ==> all[i].fname != f
    ensures f !in Names(EntriesOf(ring))
  {
    forall i | 0 <= i < |ring|
      ensures Names(EntriesOf(ring))[i] != f
    {
      assert ring[i] in all;
    }
  }

  /** Only the last inode is followed by the first. */
  lemma WholeTurn(all: seq<Inode>, k: nat)
    requires Ring(all) && k < |all| && all[After(k, |all|)] == all[0]
    ensures k + 1 == |all|
  {
    FirstIsNotAgain(all);
  }

  lemma MoreNames(q: seq<Entry>, f: string, referenced: bool)
    requires Unique(q) && f !in Names(q)
    ensures Unique(q + [Entry(f, referenced)])
  {
    assert forall i :: 0 <= i < |q| ==> Names(q)[i] == q[i].fname;
  }

  lemma EntriesMore(ring: seq<Inode>, elem: Inode)
    ensures EntriesOf(ring + [elem]) == EntriesOf(ring) + [Entry(elem.fname, elem.refBit != 0)]
  {
    assert (ring + [elem])[..|ring|] == ring;
  }

  /** The victim is the head exactly when the head is at the hand. */
  lemma HeadMoves(ring: seq<Inode>, h: nat)
    requires Ring(ring) && h < |ring|
    ensures ring[h] == ring[0] <==> h == 0
  {
  }

  /** One bit more is set. */
  lemma MarkedAre(ring: seq<Inode>, found: Inode, q: seq<Entry>)
    requires |q| == |ring| && found in ring && Unique(q)
    requires forall i :: 0 <= i < |ring| ==> q[i].fname == ring[i].fname
    requires forall i :: 0 <= i < |ring| && ring[i] != found ==> q[i].referenced == (ring[i].refBit != 0)
    requires found.refBit == 1
    ensures EntriesOf(ring) == Insert(q, found.fname) && Unique(EntriesOf(ring))
  {
    hide EntriesOf;
    var k :| 0 <= k < |ring| && ring[k] == found;
    assert Names(q)[k] == found.fname;
  }

  lemma EntryAt(ring: seq<Inode>, i: nat)
    requires i < |ring|
    ensures |EntriesOf(ring)| == |ring| && EntriesOf(ring)[i] == Entry(ring[i].fname, ring[i].refBit != 0)
  {
  }

  lemma TurnedOnce(ring: seq<Inode>)
    requires ring != []
    ensures NodesOf(ring[1..] + [ring[0]]) == NodesOf(ring) && ring[0] in NodesOf(ring)
  {
    assert ring == [ring[0]] + ring[1..];
  }

  lemma NoEntries()
    ensures EntriesOf([]) == []
  {
  }

  /** Where the head is once the inode at i is gone. */
  function HeadAfter(h: nat, i: nat, n: nat): nat
    requires h < n && i < n
  {
    if i < h then h - 1 else if i == h && h == n - 1 then 0 else h
  }

  /** Which of head, tail and hand are on the inode at i, and where they are when they have stepped off it. */
  lemma EndsBeside(ring: seq<Inode>, h: nat, i: nat)
    requires Ring(ring) && |ring| > 1 && h < |ring| && i < |ring|
    ensures var n, h', r := |ring|, HeadAfter(h, i, |ring|), ring[..i] + ring[i + 1..];
            && h' < |r| == n - 1 && (h == 0 ==> h' == 0)
            && (ring[i] == ring[h] <==> i == h)
            && r[h'] == (if ring[i] == ring[h] then ring[i].next else ring[h])
            && (r[Before(h', n - 1)] ==
                  if ring[i] != ring[h] && ring[i] == ring[Before(h, n)] then ring[i].prev else ring[Before(h, n)])
            && r[0] == (if ring[i] == ring[0] then ring[i].next else ring[0])
  {
    hide Ring, HeadAfter;
    Neighbours(ring, i);
    EndsAfter(ring, h, i);
  }

  lemma EndsAfter(ring: seq<Inode>, h: nat, i: nat)
    requires h < |ring| && i < |ring| && |ring| > 1
    ensures var n, h', r := |ring|, HeadAfter(h, i, |ring|), ring[..i] + ring[i + 1..];
            && h' < n - 1
            && r[h'] == ring[if i == h then After(i, n) else h]
            && r[Before(h', n - 1)] == ring[if i == Before(h, n) && i != h then Before(i, n) else Before(h, n)]
            && r[0] == ring[if i == 0 then 1 else 0]
            && (i == 0 && h == 0 ==> h' == 0) && (h == 0 ==> h' == 0)
  {
  }

  lemma FewerEntries(ring: seq<Inode>, i: nat)
    requires i < |ring|
    ensures EntriesOf(ring[..i] + ring[i + 1..]) == EntriesOf(ring)[..i] + EntriesOf(ring)[i + 1..]
  {
    hide EntriesOf;
  }

  lemma FewerNames(ring: seq<Inode>, i: nat)
    requires i < |ring| && Unique(EntriesOf(ring))
    ensures Unique(EntriesOf(ring[..i] + ring[i + 1..]))
  {
    hide EntriesOf, Unique;
    FewerEntries(ring, i);
    FewerUnique(EntriesOf(ring), i);
  }

  lemma TurnedEnds(ring: seq<Inode>, h: nat)
    requires h < |ring| && |ring| > 1
    ensures var n, h', r := |ring|, Before(h, |ring|), ring[1..] + [ring[0]];
            |r| == n && r[h'] == ring[h] && r[Before(h', n)] == ring[Before(h, n)] && r[0] == ring[1]
  {
  }

  lemma PassedEntries(ring: seq<Inode>, q: seq<Entry>)
    requires ring != [] && |q| == |ring| && ring[0].refBit == 0 && q[0].fname == ring[0].fname
    requires forall i :: 0 < i < |ring| ==> q[i] == Entry(ring[i].fname, ring[i].refBit != 0)
    ensures EntriesOf(ring[1..] + [ring[0]]) == q[1..] + [Entry(q[0].fname, false)]
  {
    hide EntriesOf;
  }

  lemma TurnedNames(q: seq<Entry>)
    requires q != [] && Unique(q)
    ensures Unique(q[1..] + [Entry(q[0].fname, false)])
  {
  }
}
