/**
 The LFU eviction queue (src/util.c): a cyclic list of files with their access counts. Its claim, over every
 run: the list is sorted by count with ties in the order of last access, and counts are exact.
 */
module LfuCache {
  import opened InodeRing

  datatype Entry = Entry(fname: string, freq: int)

  // ----- the queue as a value -----

  ghost predicate Unique(q: seq<Entry>) {
    forall i, j :: 0 <= i < j < |q| ==> q[i].fname != q[j].fname
  }

  /** Where a file is, or the length if it is nowhere. */
  function IndexOf(q: seq<Entry>, f: string): (i: nat)
    ensures i <= |q| && (i < |q| ==> q[i].fname == f) && forall j :: 0 <= j < i ==> q[j].fname != f
  {
    if q == [] || q[0].fname == f then 0 else 1 + IndexOf(q[1..], f)
  }

  /** get_pos_lfu: behind all files that are not used more often. */
  function PlaceOf(q: seq<Entry>, freq: int): (k: nat)
    ensures k <= |q| && (k < |q| ==> q[k].freq > freq) && forall j :: 0 <= j < k ==> q[j].freq <= freq
  {
    if q == [] || q[0].freq > freq then 0 else 1 + PlaceOf(q[1..], freq)
  }

  function InsertAt<T>(q: seq<T>, k: nat, e: T): seq<T>
    requires k <= |q|
  {
    q[..k] + [e] + q[k..]
  }

  function RemoveAt(q: seq<Entry>, i: nat): seq<Entry>
    requires i < |q|
  {
    q[..i] + q[i + 1..]
  }

  /** rmelem_lfu. */
  function Remove(q: seq<Entry>, f: string): seq<Entry> {
    if IndexOf(q, f) < |q| then RemoveAt(q, IndexOf(q, f)) else q
  }

  /** insque_lfu: a file that is there is counted once more, a new one comes in with the given count. */
  function Access(q: seq<Entry>, f: string, first: int): seq<Entry> {
    var i := IndexOf(q, f);
    var freq := if i < |q| then q[i].freq + 1 else first;
    var rest := Remove(q, f);
    InsertAt(rest, PlaceOf(rest, freq), Entry(f, freq))
  }

  // ----- runs -----

  datatype LogEntry = Accessed(f: string) | Left(f: string)

  /** How often a file was accessed since it last entered. */
  function Count(log: seq<LogEntry>, f: string): nat {
    if log == [] then 0
    else
      var last := log[|log| - 1];
      if last.f != f then Count(log[..|log| - 1], f)
      else if last.Left? then 0
      else 1 + Count(log[..|log| - 1], f)
  }

  /** When a file was last accessed. */
  function LastAt(log: seq<LogEntry>, f: string): (k: int)
    ensures k < |log|
  {
    if log == [] then -1
    else if log[|log| - 1] == Accessed(f) then |log| - 1
    else LastAt(log[..|log| - 1], f)
  }

  datatype LfuEvent = Use(f: string) | Evict | Drop(f: string)

  /** The queue and everything that happened. */
  datatype LfuState = LfuState(q: seq<Entry>, log: seq<LogEntry>)

  function Happen(s: LfuState, e: LfuEvent): LfuState {
    match e
    case Use(f) => LfuState(Access(s.q, f, 1), s.log + [Accessed(f)])
    case Evict => if s.q == [] then s else LfuState(s.q[1..], s.log + [Left(s.q[0].fname)])
    case Drop(f) => LfuState(Remove(s.q, f), s.log + [Left(f)])
  }

  function HappenAll(s: LfuState, es: seq<LfuEvent>): LfuState
    decreases |es|
  {
    if es == [] then s else HappenAll(Happen(s, es[0]), es[1..])
  }

  /** a goes before b: it is used less, or as much and longer ago. */
  ghost predicate Sooner(log: seq<LogEntry>, a: Entry, b: Entry) {
    a.freq < b.freq || (a.freq == b.freq && LastAt(log, a.fname) < LastAt(log, b.fname))
  }

  ghost predicate Sorted(log: seq<LogEntry>, q: seq<Entry>) {
    forall i, j :: 0 <= i < j < |q| ==> Sooner(log, q[i], q[j])
  }

  ghost predicate Counted(log: seq<LogEntry>, q: seq<Entry>) {
    forall i :: 0 <= i < |q| ==> q[i].freq == Count(log, q[i].fname) > 0
  }

  ghost predicate Complete(log: seq<LogEntry>, q: seq<Entry>) {
    forall f :: Count(log, f) > 0 ==> IndexOf(q, f) < |q|
  }

  ghost predicate LfuInv(s: LfuState) {
    Unique(s.q) && Counted(s.log, s.q) && Sorted(s.log, s.q) && Complete(s.log, s.q)
  }

  /** What happens to one file changes nothing for the others. */
  lemma LogAbout(log: seq<LogEntry>, e: LogEntry, f: string)
    ensures e.f != f ==> Count(log + [e], f) == Count(log, f) && LastAt(log + [e], f) == LastAt(log, f)
    ensures e == Accessed(f) ==> Count(log + [e], f) == Count(log, f) + 1 && LastAt(log + [e], f) == |log|
    ensures e == Left(f) ==> Count(log + [e], f) == 0
  {
    assert (log + [e])[..|log|] == log;
  }

  /** The place in the queue before a removal at i. */
  function Shift(i: nat, k: nat): nat {
    if k < i then k else k + 1
  }

  lemma RemovedEntries(q: seq<Entry>, f: string)
    requires Unique(q)
    ensures var r := Remove(q, f);
            && |r| <= |q|
            && (forall k :: 0 <= k < |r| ==> Shift(IndexOf(q, f), k) < |q| && r[k] == q[Shift(IndexOf(q, f), k)])
            && (forall k :: 0 <= k < |r| ==> r[k].fname != f)
  {
    hide IndexOf, Unique;
    var i, r := IndexOf(q, f), Remove(q, f);
    OnlyThere(q, f);
    if i < |q| {
      RemovedAt(q, i);
    } else {
      forall k | 0 <= k < |r|
        ensures r[k] == q[Shift(i, k)]
      {
      }
    }
  }

  lemma RemovedAt(q: seq<Entry>, i: nat)
    requires i < |q|
    ensures |RemoveAt(q, i)| == |q| - 1
    ensures forall k :: 0 <= k < |q| - 1 ==> RemoveAt(q, i)[k] == q[Shift(i, k)]
  {
  }

  lemma OnlyThere(q: seq<Entry>, f: string)
    requires Unique(q)
    ensures forall k :: 0 <= k < |q| && k != IndexOf(q, f) ==> q[k].fname != f
  {
    hide IndexOf;
  }

  lemma RemovedUnique(q: seq<Entry>, f: string)
    requires Unique(q)
    ensures Unique(Remove(q, f))
  {
    hide IndexOf, Remove;
    RemovedEntries(q, f);
  }

  lemma RemovedOthers(q: seq<Entry>, f: string, g: string)
    requires Unique(q) && g != f && IndexOf(q, g) < |q|
    ensures IndexOf(Remove(q, f), g) < |Remove(q, f)|
  {
    var r, i, j := Remove(q, f), IndexOf(q, f), IndexOf(q, g);
    assert r[if j < i then j else j - 1].fname == g;
  }

  lemma RemovedSorted(log: seq<LogEntry>, q: seq<Entry>, f: string)
    requires Unique(q) && Sorted(log, q)
    ensures Sorted(log, Remove(q, f))
  {
    hide IndexOf, Remove, Sooner;
    RemovedEntries(q, f);
  }

  lemma RemovedCounted(log: seq<LogEntry>, q: seq<Entry>, f: string)
    requires Unique(q) && Counted(log, q)
    ensures Counted(log, Remove(q, f))
  {
    hide IndexOf, Remove, Count;
    RemovedEntries(q, f);
  }

  /** An event about a file that is not in the queue leaves its order and its counts as they are. */
  lemma LogKeeps(log: seq<LogEntry>, e: LogEntry, q: seq<Entry>)
    requires forall k :: 0 <= k < |q| ==> q[k].fname != e.f
    requires Sorted(log, q) && Counted(log, q)
    ensures Sorted(log + [e], q) && Counted(log + [e], q)
    ensures forall k :: 0 <= k < |q| ==> LastAt(log + [e], q[k].fname) < |log|
  {
    hide Count, LastAt;
    forall k | 0 <= k < |q|
      ensures Count(log + [e], q[k].fname) == Count(log, q[k].fname)
      ensures LastAt(log + [e], q[k].fname) == LastAt(log, q[k].fname) < |log|
    {
      LogAbout(log, e, q[k].fname);
    }
  }

  /** The queue without a file, in a log that says something about it. */
  lemma RemovedInv(s: LfuState, e: LogEntry)
    requires LfuInv(s)
    ensures var q := Remove(s.q, e.f);
            && Unique(q) && Counted(s.log + [e], q) && Sorted(s.log + [e], q)
            && (forall k :: 0 <= k < |q| ==> LastAt(s.log + [e], q[k].fname) < |s.log| && q[k].fname != e.f)
  {
    hide Unique, Counted, Sorted, Complete, Remove, Count, LastAt;
    RemovedEntries(s.q, e.f);
    RemovedUnique(s.q, e.f);
    RemovedSorted(s.log, s.q, e.f);
    RemovedCounted(s.log, s.q, e.f);
    LogKeeps(s.log, e, Remove(s.q, e.f));
  }

  lemma DropKeeps(s: LfuState, f: string)
    requires LfuInv(s)
    ensures LfuInv(Happen(s, Drop(f)))
  {
    hide Unique, Counted, Sorted, Remove, Count, IndexOf;
    var e := Left(f);
    RemovedInv(s, e);
    forall g | Count(s.log + [e], g) > 0
      ensures IndexOf(Remove(s.q, f), g) < |Remove(s.q, f)|
    {
      LogAbout(s.log, e, g);
      RemovedOthers(s.q, f, g);
    }
  }

  lemma EvictIsDrop(s: LfuState)
    requires s.q != []
    ensures Happen(s, Evict) == Happen(s, Drop(s.q[0].fname))
  {
  }

  // ----- an access -----

  lemma InsertedAt<T>(q: seq<T>, k: nat, e: T)
    requires k <= |q|
    ensures var r := InsertAt(q, k, e);
            && |r| == |q| + 1 && r[k] == e
            && (forall j :: 0 <= j < k ==> r[j] == q[j]) && (forall j :: k < j < |r| ==> r[j] == q[j - 1])
  {
  }

  lemma InsertedUnique(q: seq<Entry>, k: nat, e: Entry)
    requires k <= |q| && Unique(q) && forall j :: 0 <= j < |q| ==> q[j].fname != e.fname
    ensures Unique(InsertAt(q, k, e))
  {
  }

  /** The newest access goes behind all files that are not used more often. */
  lemma InsertedSorted(log: seq<LogEntry>, q: seq<Entry>, e: Entry)
    requires Sorted(log, q)
    requires forall j :: 0 <= j < |q| ==> LastAt(log, q[j].fname) < LastAt(log, e.fname)
    ensures Sorted(log, InsertAt(q, PlaceOf(q, e.freq), e))
  {
    hide LastAt;
    var k := PlaceOf(q, e.freq);
    var r := InsertAt(q, k, e);
    forall j | k < j < |q|
      ensures q[j].freq > e.freq
    {
      assert Sooner(log, q[k], q[j]);
    }
    forall i, j | 0 <= i < j < |r|
      ensures Sooner(log, r[i], r[j])
    {
      if i != k && j != k {
        assert Sooner(log, q[if i < k then i else i - 1], q[if j < k then j else j - 1]);
      }
    }
  }

  lemma UseKeeps(s: LfuState, f: string)
    requires LfuInv(s)
    ensures LfuInv(Happen(s, Use(f)))
  {
    hide Unique, Sorted, Counted, Complete, Remove, IndexOf, InsertAt, PlaceOf, Count;
    CountIs(s, f);
    var rest, freq := Remove(s.q, f), Count(s.log, f) + 1;
    UsedInOrder(s, f, rest, PlaceOf(rest, freq), Entry(f, freq));
    UsedComplete(s, f, PlaceOf(rest, freq), Entry(f, freq));
  }

  lemma UsedInOrder(s: LfuState, f: string, rest: seq<Entry>, k: nat, entry: Entry)
    requires LfuInv(s) && rest == Remove(s.q, f) && entry == Entry(f, Count(s.log, f) + 1)
        && k == PlaceOf(rest, entry.freq)
    ensures var r, log := InsertAt(rest, k, entry), s.log + [Accessed(f)];
            Unique(r) && Counted(log, r) && Sorted(log, r)
  {
    hide Unique, Sorted, Remove, IndexOf, InsertAt, PlaceOf, Count, LastAt, Complete;
    RemovedInv(s, Accessed(f));
    LogAbout(s.log, Accessed(f), f);
    InsertedAt(rest, k, entry);
    InsertedUnique(rest, k, entry);
    InsertedSorted(s.log + [Accessed(f)], rest, entry);
  }

  lemma UsedComplete(s: LfuState, f: string, k: nat, entry: Entry)
    requires LfuInv(s) && k <= |Remove(s.q, f)| && entry.fname == f
    ensures Complete(s.log + [Accessed(f)], InsertAt(Remove(s.q, f), k, entry))
  {
    hide Remove, IndexOf, InsertAt, Count;
    forall g | Count(s.log + [Accessed(f)], g) > 0
      ensures IndexOf(InsertAt(Remove(s.q, f), k, entry), g) < |InsertAt(Remove(s.q, f), k, entry)|
    {
      LogAbout(s.log, Accessed(f), g);
      UsedThere(s.q, f, g, k, entry);
    }
  }

  lemma CountIs(s: LfuState, f: string)
    requires LfuInv(s)
    ensures var i := IndexOf(s.q, f); Count(s.log, f) == if i < |s.q| then s.q[i].freq else 0
  {
  }

  lemma UsedThere(q: seq<Entry>, f: string, g: string, k: nat, entry: Entry)
    requires Unique(q) && k <= |Remove(q, f)| && entry.fname == f && (g == f || IndexOf(q, g) < |q|)
    ensures var r := InsertAt(Remove(q, f), k, entry); IndexOf(r, g) < |r|
  {
    hide Remove;
    var rest := Remove(q, f);
    var r := InsertAt(rest, k, entry);
    InsertedAt(rest, k, entry);
    if g != f {
      RemovedOthers(q, f, g);
      var j := IndexOf(rest, g);
      assert r[if j < k then j else j + 1].fname == g;
    } else {
      assert r[k].fname == g;
    }
  }

  lemma {:induction false} RunKeeps(s: LfuState, es: seq<LfuEvent>)
    requires LfuInv(s)
    ensures LfuInv(HappenAll(s, es))
    decreases |es|
  {
    hide LfuInv, Happen;
    if es != [] {
      match es[0] {
        case Use(f) => UseKeeps(s, f);
        case Drop(f) => DropKeeps(s, f);
        case Evict => EvictKeeps(s);
      }
      RunKeeps(Happen(s, es[0]), es[1..]);
    }
  }

  lemma EvictKeeps(s: LfuState)
    requires LfuInv(s)
    ensures LfuInv(Happen(s, Evict))
  {
    hide LfuInv;
    if s.q != [] {
      EvictIsDrop(s);
      DropKeeps(s, s.q[0].fname);
    }
  }

  /**
   Over every run: the file at the head, which is the one evicted, was accessed least often since it entered,
   and longest ago among those; the queue holds exactly the files that were accessed and did not leave.
   */
  lemma EvictsLeastFrequent(es: seq<LfuEvent>, f: string)
    ensures var s := HappenAll(LfuState([], []), es);
            && (IndexOf(s.q, f) < |s.q| <==> Count(s.log, f) > 0)
            && (Count(s.log, f) > 0 && f != s.q[0].fname ==>
                  || Count(s.log, s.q[0].fname) < Count(s.log, f)
                  || (Count(s.log, s.q[0].fname) == Count(s.log, f) && LastAt(s.log, s.q[0].fname) < LastAt(s.log, f)))
  {
    RunKeeps(LfuState([], []), es);
    var s := HappenAll(LfuState([], []), es);
    CountIs(s, f);
    if Count(s.log, f) > 0 && f != s.q[0].fname {
      assert Sooner(s.log, s.q[0], s.q[IndexOf(s.q, f)]);
    }
  }

  // ----- the queue in memory -----

  function EntriesOf(ring: seq<Inode>): (q: seq<Entry>)
    reads NodesOf(ring)`freq
    ensures |q| == |ring| && forall i :: 0 <= i < |ring| ==> q[i] == Entry(ring[i].fname, ring[i].freq)
  {
    if ring == [] then []
    else
      assert forall x :: x in ring[..|ring| - 1] ==> x in ring;
      assert ring[|ring| - 1] in ring;
      EntriesOf(ring[..|ring| - 1]) + [Entry(ring[|ring| - 1].fname, ring[|ring| - 1].freq)]
  }

  class LfuQueue {
    var head: Inode?
    var tail: Inode?

    /** The inodes from the head on. */
    ghost var ring: seq<Inode>

    ghost predicate EndsOf(r: seq<Inode>)
      reads this`head, this`tail
    {
      if r == [] then head == null && tail == null else head == r[0] && tail == r[|r| - 1]
    }

    ghost predicate Valid()
      reads this, NodesOf(ring)
    {
      EndsOf(ring) && Ring(ring) && Unique(EntriesOf(ring))
    }

    constructor ()
      ensures Valid() && ring == []
    {
      head, tail, ring := null, null, [];
    }

    /** findelem_lfu. */
    method Find(fname: string) returns (found: Inode?, ghost i: nat)
      requires Valid()
      ensures i == IndexOf(EntriesOf(ring), fname)
      ensures found == if IndexOf(EntriesOf(ring), fname) < |ring| then ring[IndexOf(EntriesOf(ring), fname)] else null
    {
      hide Unique, EntriesOf, Ring, IndexOf;
      i := 0;
      if head == null {
        return null, 0;
      }
      var curr := head;
      Neighbours(ring, 0);
      while true
        invariant 0 <= i < |ring| && curr == ring[i]
        invariant forall j :: 0 <= j < i ==> ring[j].fname != fname
        decreases |ring| - i
      {
        Neighbours(ring, i);
        if curr.fname == fname {
          FirstAt(EntriesOf(ring), fname, i);
          return curr, i;
        }
        curr := curr.next;
        i := i + 1;
        if curr == head {
          break;
        }
      }
      FirstAt(EntriesOf(ring), fname, i);
      return null, i;
    }

    /** get_pos_lfu: the inode to insert behind, or none for the head. */
    method GetPos(freq: int) returns (prev: Inode?, ghost k: nat)
      requires Valid() && ring != []
      ensures k == PlaceOf(EntriesOf(ring), freq)
      ensures prev == if PlaceOf(EntriesOf(ring), freq) == 0 then null else ring[PlaceOf(EntriesOf(ring), freq) - 1]
    {
      hide Unique, EntriesOf, Ring, PlaceOf;
      var curr := head;
      Neighbours(ring, 0);
      var found := false;
      k := 0;
      while true
        invariant 0 <= k < |ring| && curr == ring[k] && !found
        invariant forall j :: 0 <= j < k ==> ring[j].freq <= freq
        decreases |ring| - k
      {
        Neighbours(ring, k);
        if freq < curr.freq {
          found := true;
          break;
        }
        curr := curr.next;
        k := k + 1;
        if curr == head {
          break;
        }
      }
      PlacedAt(EntriesOf(ring), freq, k);
      if head == curr {
        if found {
          return null, k;
        }
        return tail, k;
      }
      Neighbours(ring, k);
      return curr.prev, k;
    }

    /** rmelem_lfu: the file leaves the queue, wherever it is. */
    method Rmelem(fname: string)
      requires Valid()
      modifies this, NodesOf(ring)`next, NodesOf(ring)`prev
      ensures Valid() && EntriesOf(ring) == Remove(old(EntriesOf(ring)), fname)
      ensures NodesOf(ring) <= old(NodesOf(ring))
    {
      hide Unique, EntriesOf, Ring, IndexOf;
      var found;
      ghost var i;
      found, i := Find(fname);
      if found != null {
        LeaveAt(found, i);
      }
    }

    /** The inode at i leaves: at the head, at the tail or in between. */
    method LeaveAt(found: Inode, ghost i: nat)
      requires Valid() && i < |ring| && found == ring[i]
      modifies this, NodesOf(ring)`next, NodesOf(ring)`prev
      ensures Valid() && ring == old(ring)[..i] + old(ring)[i + 1..]
      ensures EntriesOf(ring) == RemoveAt(old(EntriesOf(ring)), i)
      ensures NodesOf(ring) <= old(NodesOf(ring))
    {
      hide Unique, EntriesOf, Ring, RemoveAt;
      FewerEntries(ring, i);
      FewerUnique(EntriesOf(ring), i);
      HeadAndTail(ring, i);
      if found == head {
        if head == head.next {
          head, tail := null, null;
          NoRing();
          ring := [];
          return;
        }
        head := head.next;
      } else if found == tail {
        tail := found.prev;
      }
      Remque(found, ring, i);
      ring := ring[..i] + ring[i + 1..];
    }

    /** remque_lfu: the file at the head is evicted. */
    method RemqueHead() returns (fname: string)
      requires Valid() && ring != []
      modifies this, NodesOf(ring)`next, NodesOf(ring)`prev
      ensures Valid() && fname == old(EntriesOf(ring))[0].fname && EntriesOf(ring) == old(EntriesOf(ring))[1..]
      ensures NodesOf(ring) <= old(NodesOf(ring))
    {
      hide Unique, EntriesOf, Ring;
      fname := head.fname;
      assert EntriesOf(ring)[..0] + EntriesOf(ring)[1..] == EntriesOf(ring)[1..];
      LeaveAt(head, 0);
    }

    /** The second half of insque_lfu: the inode goes to its place. */
    method InsertInode(elem: Inode)
      requires Valid() && elem !in ring && IndexOf(EntriesOf(ring), elem.fname) == |ring|
      modifies this, elem`next, elem`prev, NodesOf(ring)`next, NodesOf(ring)`prev
      ensures Valid() && NodesOf(ring) == old(NodesOf(ring)) + {elem}
      ensures var q := old(EntriesOf(ring));
              EntriesOf(ring) == InsertAt(q, PlaceOf(q, elem.freq), Entry(elem.fname, elem.freq))
    {
      hide Unique, EntriesOf, Ring, IndexOf, PlaceOf, InsertAt;
      ghost var q, k := EntriesOf(ring), PlaceOf(EntriesOf(ring), elem.freq);
      NewName(q, elem.fname);
      InsertedUnique(q, k, Entry(elem.fname, elem.freq));
      MoreEntries(ring, k, elem);
      MoreNodes(ring, k, elem);
      if head == null {
        LinkAlone(elem);
        head, tail := elem, elem;
        assert ring[..k] + [elem] + ring[k..] == [elem];
        ring := [elem];
      } else {
        LinkInode(elem, k);
      }
    }

    /** The pointers of insque_lfu in a queue that is not empty: new head, new tail, or somewhere in between. */
    method LinkInode(elem: Inode, ghost k: nat)
      requires Valid() && ring != [] && elem !in ring && k == PlaceOf(EntriesOf(ring), elem.freq)
      modifies this, elem`next, elem`prev, NodesOf(ring)`next, NodesOf(ring)`prev
      ensures ring == old(ring)[..k] + [elem] + old(ring)[k..] && EndsOf(ring) && Ring(ring)
    {
      hide Unique, EntriesOf, Ring, IndexOf, PlaceOf;
      var prev;
      ghost var k0;
      prev, k0 := GetPos(elem.freq);
      if prev == null {
        LinkFront(elem);
      } else {
        LinkBehind(elem, prev, k);
      }
    }

    method LinkFront(elem: Inode)
      requires ring != [] && elem !in ring && EndsOf(ring) && Ring(ring)
      modifies this`head, this`ring, elem`next, elem`prev, NodesOf(ring)`next, NodesOf(ring)`prev
      ensures ring == old(ring)[..0] + [elem] + old(ring)[0..] && EndsOf(ring) && Ring(ring)
    {
      hide Ring;
      InsertedEnds(ring, 0, elem);
      Insque(elem, tail, ring, |ring|);
      TurnToFront(ring, elem);
      head := elem;
      ring := ring[..0] + [elem] + ring[0..];
    }

    method LinkBehind(elem: Inode, prev: Inode, ghost k: nat)
      requires ring != [] && elem !in ring && EndsOf(ring) && Ring(ring) && 0 < k <= |ring| && prev == ring[k - 1]
      modifies this`tail, this`ring, elem`next, elem`prev, NodesOf(ring)`next, NodesOf(ring)`prev
      ensures ring == old(ring)[..k] + [elem] + old(ring)[k..] && EndsOf(ring) && Ring(ring)
    {
      hide Ring;
      InsertedEnds(ring, k, elem);
      BehindTail(ring, k);
      Insque(elem, prev, ring, k);
      if tail == prev {
        tail := elem;
      }
      ring := ring[..k] + [elem] + ring[k..];
    }

    /** insque_lfu: elem stands for an access to its file; the caller has set its count for a first access. */
    method InsertAccess(elem: Inode)
      requires Valid() && elem !in ring
      modifies this, elem`freq, elem`next, elem`prev, NodesOf(ring)`next, NodesOf(ring)`prev
      ensures Valid() && EntriesOf(ring) == Access(old(EntriesOf(ring)), elem.fname, old(elem.freq))
      ensures elem in ring && NodesOf(ring) <= old(NodesOf(ring)) + {elem}
    {
      hide Unique, EntriesOf, Ring, IndexOf, PlaceOf, InsertAt, Remove;
      ghost var q := EntriesOf(ring);
      TakeOver(elem);
      NotThere(q, elem.fname);
      InsertInode(elem);
    }

    /** The first half of insque_lfu: the inode that was there goes, and its count is carried on. */
    method TakeOver(elem: Inode)
      requires Valid() && elem !in ring
      modifies this, elem`freq, NodesOf(ring)`next, NodesOf(ring)`prev
      ensures Valid() && EntriesOf(ring) == Remove(old(EntriesOf(ring)), elem.fname)
      ensures NodesOf(ring) <= old(NodesOf(ring)) && elem !in ring
      ensures var q, i := old(EntriesOf(ring)), IndexOf(old(EntriesOf(ring)), elem.fname);
              elem.freq == if i < |q| then q[i].freq + 1 else old(elem.freq)
    {
      hide Unique, EntriesOf, Ring, IndexOf, Remove;
      RemovedNone(EntriesOf(ring), elem.fname);
      var found;
      ghost var i;
      found, i := Find(elem.fname);
      if found != null {
        elem.freq := found.freq + 1;
        Rmelem(found.fname);
      }
      assert elem !in NodesOf(ring);
    }
  }

  lemma {:induction false} FirstAt(q: seq<Entry>, f: string, i: nat)
    requires i <= |q| && (i < |q| ==> q[i].fname == f) && forall j :: 0 <= j < i ==> q[j].fname != f
    ensures IndexOf(q, f) == i
    decreases i
  {
    if i > 0 {
      FirstAt(q[1..], f, i - 1);
    }
  }

  lemma {:induction false} PlacedAt(q: seq<Entry>, freq: int, k: nat)
    requires k <= |q| && (k < |q| ==> q[k].freq > freq) && forall j :: 0 <= j < k ==> q[j].freq <= freq
    ensures PlaceOf(q, freq) == k
    decreases k
  {
    if k > 0 {
      PlacedAt(q[1..], freq, k - 1);
    }
  }

  lemma FewerEntries(ring: seq<Inode>, i: nat)
    requires i < |ring|
    ensures EntriesOf(ring[..i] + ring[i + 1..]) == RemoveAt(EntriesOf(ring), i)
    ensures NodesOf(ring[..i] + ring[i + 1..]) <= NodesOf(ring)
  {
    hide EntriesOf;
  }

  lemma FewerUnique(q: seq<Entry>, i: nat)
    requires i < |q| && Unique(q)
    ensures Unique(RemoveAt(q, i))
  {
  }

  lemma MoreEntries(ring: seq<Inode>, k: nat, elem: Inode)
    requires k <= |ring|
    ensures EntriesOf(ring[..k] + [elem] + ring[k..]) == InsertAt(EntriesOf(ring), k, Entry(elem.fname, elem.freq))
  {
    MoreEntriesOf(ring, k, elem, ring[..k] + [elem] + ring[k..]);
  }

  lemma MoreEntriesOf(ring: seq<Inode>, k: nat, elem: Inode, r: seq<Inode>)
    requires k <= |ring| && r == InsertAt(ring, k, elem)
    ensures EntriesOf(r) == InsertAt(EntriesOf(ring), k, Entry(elem.fname, elem.freq))
  {
    hide EntriesOf, InsertAt;
    var q, e := EntriesOf(ring), Entry(elem.fname, elem.freq);
    InsertedAt(q, k, e);
    InsertedAt(ring, k, elem);
    SameEntries(r, InsertAt(q, k, e));
  }

  lemma SameEntries(ring: seq<Inode>, q: seq<Entry>)
    requires |q| == |ring| && forall i :: 0 <= i < |q| ==> q[i] == Entry(ring[i].fname, ring[i].freq)
    ensures EntriesOf(ring) == q
  {
    hide EntriesOf;
  }

  lemma MoreNodes(ring: seq<Inode>, k: nat, elem: Inode)
    requires k <= |ring|
    ensures NodesOf(ring[..k] + [elem] + ring[k..]) == NodesOf(ring) + {elem}
  {
    assert ring == ring[..k] + ring[k..];
  }

  /** Which end the inode at i is. */
  lemma HeadAndTail(ring: seq<Inode>, i: nat)
    requires Ring(ring) && i < |ring|
    ensures ring[i] == ring[0] <==> i == 0
    ensures ring[i] == ring[|ring| - 1] <==> i == |ring| - 1
    ensures ring[i].next == ring[After(i, |ring|)] && ring[i].prev == ring[Before(i, |ring|)]
    ensures ring[i].next == ring[i] <==> |ring| == 1
  {
  }

  lemma NewName(q: seq<Entry>, f: string)
    requires IndexOf(q, f) == |q|
    ensures forall j :: 0 <= j < |q| ==> q[j].fname != f
  {
  }

  lemma NotThere(q: seq<Entry>, f: string)
    requires Unique(q)
    ensures IndexOf(Remove(q, f), f) == |Remove(q, f)|
  {
    hide IndexOf, Remove;
    RemovedEntries(q, f);
    FirstAt(Remove(q, f), f, |Remove(q, f)|);
  }

  lemma InsertedEnds(ring: seq<Inode>, k: nat, elem: Inode)
    requires k <= |ring| && ring != []
    ensures var r := ring[..k] + [elem] + ring[k..];
            && |r| == |ring| + 1 && r[0] == (if k == 0 then elem else ring[0])
            && r[|ring|] == if k == |ring| then elem else ring[|ring| - 1]
  {
  }

  lemma RemovedNone(q: seq<Entry>, f: string)
    ensures IndexOf(q, f) == |q| ==> Remove(q, f) == q
  {
    hide IndexOf;
  }

  lemma BehindTail(ring: seq<Inode>, k: nat)
    requires Ring(ring) && 0 < k <= |ring|
    ensures ring[k - 1] == ring[|ring| - 1] <==> k == |ring|
  {
  }

  /** Behind the tail is before the head. */
  lemma TurnToFront(ring: seq<Inode>, elem: Inode)
    requires Ring(ring[..|ring|] + [elem] + ring[|ring|..])
    ensures Ring(ring[..0] + [elem] + ring[0..])
  {
    var r := ring[..|ring|] + [elem] + ring[|ring|..];
    Turned(r, |ring|);
    assert r[|ring|..] + r[..|ring|] == ring[..0] + [elem] + ring[0..];
  }
}
