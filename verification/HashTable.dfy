/**
 NoVoHT (src/zht/src/common/novoht.cpp) without a backing file: the chained hash table behind ZHT. Its
 abstract content is a map; the hash function is any function of the key.
 */
module HashTable {
  import opened Common

  class KvPair {
    const key: string
    var val: string
    var next: KvPair?

    constructor (key: string, val: string)
      ensures this.key == key && this.val == val && next == null
    {
      this.key := key;
      this.val := val;
      next := null;
    }
  }

  /** The next links lead from head through the chain and end there. */
  ghost predicate Linked(head: KvPair?, chain: seq<KvPair>)
    reads chain`next
  {
    && head == (if chain == [] then null else chain[0])
    && (forall i, j :: 0 <= i < j < |chain| && j == i + 1 ==> chain[i].next == chain[j])
    && (chain != [] ==> chain[|chain| - 1].next == null)
  }

  ghost predicate Once(chain: seq<KvPair>) {
    forall i, j :: 0 <= i < j < |chain| ==> chain[i] != chain[j]
  }

  /** The pairs stand for the map: every key once, with its value. */
  ghost predicate Represents(pairs: set<KvPair>, contents: map<string, string>)
    reads pairs`val
  {
    && (forall n :: n in pairs ==> n.key in contents && contents[n.key] == n.val)
    && (forall k :: k in contents ==> exists n :: n in pairs && n.key == k)
    && (forall m, n :: m in pairs && n in pairs && m.key == n.key ==> m == n)
  }

  lemma LinkedAt(head: KvPair?, chain: seq<KvPair>, k: nat)
    requires Linked(head, chain) && k < |chain|
    ensures chain[k].next == if k + 1 < |chain| then chain[k + 1] else null
  {
    var j := k + 1;
    assert j < |chain| ==> chain[k].next == chain[j];
  }

  /** A chain whose first pair is taken off, or whose k-th pair is skipped. */
  lemma LinkedTail(head: KvPair?, chain: seq<KvPair>)
    requires Linked(head, chain) && chain != []
    ensures Linked(chain[0].next, chain[1..])
  {
    LinkedAt(head, chain, 0);
  }

  // ----- the element count over runs -----

  /** What put and remove change, as a value. */
  datatype Table = Table(size: nat, numEl: int, contents: map<string, string>) {
    predicate Full(resizeNum: real) {
      numEl as real >= size as real * resizeNum && resizeNum != 0.0
    }

    /** The element count is the number of keys. */
    ghost predicate CountRight() {
      numEl == |contents|
    }
  }

  datatype TableEvent = PutKey(k: string, v: string) | RemoveKey(k: string)

  function Happen(resizeNum: real, t: Table, e: TableEvent): Table {
    match e
    case PutKey(k, v) =>
      var more := if k in t.contents then 0 else 1;
      if t.Full(resizeNum) then Table(2 * t.size, more, t.contents[k := v])
      else Table(t.size, t.numEl + more, t.contents[k := v])
    case RemoveKey(k) =>
      Table(t.size, t.numEl - (if k in t.contents then 1 else 0), t.contents - {k})
  }

  function HappenAll(resizeNum: real, t: Table, es: seq<TableEvent>): Table
    decreases |es|
  {
    if es == [] then t else HappenAll(resizeNum, Happen(resizeNum, t, es[0]), es[1..])
  }

  /** The event makes a table grow that is not empty. */
  ghost predicate GrowsFilled(resizeNum: real, t: Table, e: TableEvent) {
    e.PutKey? && t.Full(resizeNum) && t.contents != map[]
  }

  ghost predicate NeverGrowsFilled(resizeNum: real, t: Table, es: seq<TableEvent>)
    decreases |es|
  {
    es != [] ==> !GrowsFilled(resizeNum, t, es[0]) && NeverGrowsFilled(resizeNum, Happen(resizeNum, t, es[0]), es[1..])
  }

  /** How far one event moves the count away from the number of keys. */
  lemma CountDrift(resizeNum: real, t: Table, e: TableEvent)
    ensures var t' := Happen(resizeNum, t, e);
            t'.numEl - |t'.contents| == (if e.PutKey? && t.Full(resizeNum) then 0 else t.numEl) - |t.contents|
  {
    match e
    case PutKey(k, v) =>
      assert t.contents[k := v].Keys == t.contents.Keys + {k};
      if k in t.contents { assert t.contents.Keys + {k} == t.contents.Keys; }
    case RemoveKey(k) =>
      assert (t.contents - {k}).Keys == t.contents.Keys - {k};
      if k !in t.contents { assert t.contents.Keys - {k} == t.contents.Keys; }
  }

  lemma Removed(resizeNum: real, t: Table, k: string)
    ensures k in t.contents ==> Happen(resizeNum, t, RemoveKey(k)) == Table(t.size, t.numEl - 1, t.contents - {k})
    ensures k !in t.contents ==> t.contents - {k} == t.contents && Happen(resizeNum, t, RemoveKey(k)) == t
    ensures k in t.contents ==> |t.contents - {k}| == |t.contents| - 1
  {
    CountDrift(resizeNum, t, RemoveKey(k));
  }

  /** A count that has fallen behind never catches up. */
  lemma {:induction false} CountStaysBehind(resizeNum: real, t: Table, es: seq<TableEvent>)
    requires resizeNum >= 0.0 && t.numEl < |t.contents|
    ensures HappenAll(resizeNum, t, es).numEl < |HappenAll(resizeNum, t, es).contents|
    decreases |es|
  {
    hide Happen;
    if es != [] {
      CountDrift(resizeNum, t, es[0]);
      if t.Full(resizeNum) {
        FullIsPositive(resizeNum, t);
      }
      CountStaysBehind(resizeNum, Happen(resizeNum, t, es[0]), es[1..]);
    }
  }

  lemma FullIsPositive(resizeNum: real, t: Table)
    requires resizeNum >= 0.0 && t.Full(resizeNum)
    ensures t.numEl >= 0
  {
    assert t.size as real * resizeNum >= 0.0;
  }

  /**
   The count is right after a run if and only if the run never made a table grow that was not empty. (With a
   negative load factor an empty table grows too, and can find its count again.)
   */
  lemma {:induction false} CountRightWhen(resizeNum: real, t: Table, es: seq<TableEvent>)
    requires t.CountRight()
    ensures NeverGrowsFilled(resizeNum, t, es) ==> HappenAll(resizeNum, t, es).CountRight()
    ensures resizeNum >= 0.0 && HappenAll(resizeNum, t, es).CountRight() ==> NeverGrowsFilled(resizeNum, t, es)
    decreases |es|
  {
    hide Happen, Table.Full;
    if es != [] {
      var t' := Happen(resizeNum, t, es[0]);
      CountDrift(resizeNum, t, es[0]);
      if GrowsFilled(resizeNum, t, es[0]) {
        assert |t.contents| > 0;
        if resizeNum >= 0.0 {
          CountStaysBehind(resizeNum, t', es[1..]);
        }
      } else {
        CountRightWhen(resizeNum, t', es[1..]);
      }
    }
  }

  // ----- the size over runs -----

  function Puts(es: seq<TableEvent>): nat
    decreases |es|
  {
    if es == [] then 0 else (if es[0].PutKey? then 1 else 0) + Puts(es[1..])
  }

  /** What holds between events: first is the size at the start, puts the number of puts since then. */
  ghost predicate Sized(resizeNum: real, first: nat, puts: nat, t: Table) {
    && first <= t.size && t.numEl <= puts
    && t.numEl as real < t.size as real * resizeNum + 1.0
    && (|t.contents| - t.numEl) as real <= (t.size - first) as real * (resizeNum + 1.0)
    && (t.size == first || t.size as real * resizeNum <= 2.0 * puts as real)
  }

  lemma EventKeepsSized(resizeNum: real, first: nat, puts: nat, t: Table, e: TableEvent)
    requires resizeNum > 0.0 && first >= 1 && Sized(resizeNum, first, puts, t)
    ensures Sized(resizeNum, first, puts + (if e.PutKey? then 1 else 0), Happen(resizeNum, t, e))
  {
    hide Sized;
    var t' := Happen(resizeNum, t, e);
    CountDrift(resizeNum, t, e);
    if e.PutKey? && t.Full(resizeNum) {
      DoubledKeepsSized(resizeNum, first, puts, t, t');
    } else {
      SameSizeKeepsSized(resizeNum, first, puts, t, puts + (if e.PutKey? then 1 else 0), t');
    }
  }

  lemma SameSizeKeepsSized(resizeNum: real, first: nat, puts: nat, t: Table, puts': nat, t': Table)
    requires Sized(resizeNum, first, puts, t) && puts <= puts' && t'.size == t.size
    requires t'.numEl - |t'.contents| == t.numEl - |t.contents|
    requires t'.numEl <= t.numEl
          || (t'.numEl == t.numEl + 1 && puts' == puts + 1 && (t.numEl as real) < t.size as real * resizeNum)
    ensures Sized(resizeNum, first, puts', t')
  {
  }

  lemma DoubledKeepsSized(resizeNum: real, first: nat, puts: nat, t: Table, t': Table)
    requires resizeNum > 0.0 && first >= 1 && Sized(resizeNum, first, puts, t)
    requires t.numEl as real >= t.size as real * resizeNum
    requires t'.size == 2 * t.size && 0 <= t'.numEl <= 1 && |t'.contents| - t'.numEl == |t.contents|
    ensures Sized(resizeNum, first, puts + 1, t')
  {
    var n := t.size as real * resizeNum;
    Doubled(t.size, first, resizeNum);
    assert t'.size as real * resizeNum == 2.0 * n;
    assert (|t'.contents| - t'.numEl) as real == (|t.contents| - t.numEl) as real + t.numEl as real;
  }

  lemma Doubled(size: nat, first: nat, f: real)
    requires first <= size && f > 0.0
    ensures (2 * size) as real * f == 2.0 * (size as real * f) && size as real * f >= 0.0
    ensures (2 * size - first) as real * (f + 1.0)
            == (size - first) as real * (f + 1.0) + size as real * f + size as real
  {
    assert (2 * size) as real == 2.0 * size as real;
    assert (2 * size - first) as real == (size - first) as real + size as real;
    Distribute((size - first) as real, size as real, f + 1.0);
  }

  lemma Distribute(a: real, b: real, c: real)
    ensures (a + b) * c == a * c + b * c
  {
  }

  lemma {:induction false} RunKeepsSized(resizeNum: real, first: nat, puts: nat, t: Table, es: seq<TableEvent>)
    requires resizeNum > 0.0 && first >= 1 && Sized(resizeNum, first, puts, t)
    ensures Sized(resizeNum, first, puts + Puts(es), HappenAll(resizeNum, t, es))
    decreases |es|
  {
    hide Happen, Sized;
    if es != [] {
      EventKeepsSized(resizeNum, first, puts, t, es[0]);
      RunKeepsSized(resizeNum, first, puts + if es[0].PutKey? then 1 else 0, Happen(resizeNum, t, es[0]), es[1..]);
    }
  }

  /**
   The table grows with its keys and no faster than its puts: in every run from an empty table with load factor f there
   are at most 2 * f + 1 keys a bucket, although growing loses the count, and a size n beyond the first one has taken at
   least n * f / 2 puts.
   */
  lemma KeysPerBucket(resizeNum: real, first: nat, es: seq<TableEvent>)
    requires resizeNum > 0.0 && first >= 1
    ensures var t := HappenAll(resizeNum, Table(first, 0, map[]), es);
            && |t.contents| as real <= t.size as real * (2.0 * resizeNum + 1.0)
            && first <= t.size && (t.size > first ==> t.size as real * resizeNum <= 2.0 * Puts(es) as real)
  {
    hide Happen, HappenAll, Sized;
    var t := HappenAll(resizeNum, Table(first, 0, map[]), es);
    AtFirst(resizeNum, first);
    RunKeepsSized(resizeNum, first, 0, Table(first, 0, map[]), es);
    PerBucket(resizeNum, first, Puts(es), t);
  }

  lemma AtFirst(resizeNum: real, first: nat)
    requires resizeNum > 0.0
    ensures Sized(resizeNum, first, 0, Table(first, 0, map[]))
  {
    assert first as real * resizeNum >= 0.0;
  }

  lemma PerBucket(resizeNum: real, first: nat, puts: nat, t: Table)
    requires resizeNum > 0.0 && first >= 1 && Sized(resizeNum, first, puts, t)
    ensures |t.contents| as real <= t.size as real * (2.0 * resizeNum + 1.0)
    ensures first <= t.size && (t.size > first ==> t.size as real * resizeNum <= 2.0 * puts as real)
  {
    var f, s, d := resizeNum, t.size as real, (t.size - first) as real;
    Distribute(d, first as real, f + 1.0);
    Distribute(f + 1.0, f, s);
    assert d + first as real == s && s * (f + 1.0) == (f + 1.0) * s == d * (f + 1.0) + first as real * (f + 1.0);
    assert s * (2.0 * f + 1.0) == s * (f + 1.0) + s * f;
    assert first as real * (f + 1.0) >= 1.0 by { AtLeast(first as real, f + 1.0); }
    assert |t.contents| as real == (|t.contents| - t.numEl) as real + t.numEl as real;
  }

  lemma AtLeast(a: real, b: real)
    requires a >= 1.0 && b >= 1.0
    ensures a * b >= 1.0
  {
  }

  class NoVoHT {
    const hash: string -> nat
    const resizeNum: real
    var kvpairs: array<KvPair?>
    var size: nat
    var numEl: int

    /** The map this table stands for, its pairs, and the chain of each bucket. */
    ghost var contents: map<string, string>
    ghost var pairs: set<KvPair>
    ghost var chains: seq<seq<KvPair>>

    /** The chain of bucket b: exactly the pairs whose keys belong there, each once. */
    ghost predicate Members(b: nat, n: nat, chain: seq<KvPair>, ps: set<KvPair>)
      requires n > 0
    {
      && Once(chain)
      && (forall p :: p in chain ==> p in ps)
      && (forall p :: p in ps ==> (p in chain <==> Bucket(p.key, n) == b))
    }

    ghost predicate InBucket(b: nat, n: nat, head: KvPair?, chain: seq<KvPair>, ps: set<KvPair>)
      requires n > 0
      reads chain`next
    {
      Linked(head, chain) && Members(b, n, chain, ps)
    }

    ghost predicate Chained(table: array<KvPair?>, n: nat, cs: seq<seq<KvPair>>, ps: set<KvPair>)
      reads table, ps`next
    {
      && n > 0 && table.Length == n == |cs|
      && (forall b :: 0 <= b < n ==> forall p :: p in cs[b] ==> p in ps)
      && forall b :: 0 <= b < n ==> InBucket(b, n, table[b], cs[b], ps)
    }

    function Bucket(key: string, n: nat): (b: nat)
      requires n > 0
      ensures b < n
    {
      hash(key) % n
    }

    ghost predicate Valid()
      reads this, kvpairs, pairs
    {
      && Represents(pairs, contents)
      && Chained(kvpairs, size, chains, pairs)
    }

    ghost function State(): Table
      reads this`size, this`numEl, this`contents
    {
      Table(size, numEl, contents)
    }

    constructor (hash: string -> nat, size: nat, resizeNum: real)
      requires size > 0
      ensures Valid() && State() == Table(size, 0, map[]) && this.hash == hash && this.resizeNum == resizeNum
      ensures fresh(kvpairs) && pairs == {}
    {
      this.hash, this.resizeNum, this.size := hash, resizeNum, size;
      kvpairs := new KvPair?[size](_ => null);
      numEl := 0;
      contents, pairs, chains := map[], {}, seq(size, _ => []);
    }

    // ----- where a key is -----

    lemma ChainOf(key: string)
      requires Valid()
      ensures Bucket(key, size) < kvpairs.Length == size == |chains|
      ensures Linked(kvpairs[Bucket(key, size)], chains[Bucket(key, size)]) && Once(chains[Bucket(key, size)])
    {
    }

    lemma Present(key: string, k: nat)
      requires Valid() && Bucket(key, size) < |chains| && k < |chains[Bucket(key, size)]|
      ensures chains[Bucket(key, size)][k] in pairs
      ensures chains[Bucket(key, size)][k].key in contents
      ensures contents[chains[Bucket(key, size)][k].key] == chains[Bucket(key, size)][k].val
    {
      assert InBucket(Bucket(key, size), size, kvpairs[Bucket(key, size)], chains[Bucket(key, size)], pairs);
      assert chains[Bucket(key, size)][k] in chains[Bucket(key, size)];
    }

    lemma Absent(key: string)
      requires Valid() && Bucket(key, size) < |chains|
      requires forall j :: 0 <= j < |chains[Bucket(key, size)]| ==> chains[Bucket(key, size)][j].key != key
      ensures key !in contents && forall n :: n in pairs ==> n.key != key
    {
      forall n | n in pairs
        ensures n.key != key
      {
        assert InBucket(Bucket(n.key, size), size, kvpairs[Bucket(n.key, size)], chains[Bucket(n.key, size)], pairs);
      }
    }

    /** get: the value last put under a key and not removed; the empty key is never found. */
    method Get(k: string) returns (r: Option<string>)
      requires Valid()
      ensures r == if k != "" && k in contents then Some(contents[k]) else None
    {
      hide Represents, Chained, Linked, Once;
      ChainOf(k);
      var loc := Bucket(k, size);
      var cur := kvpairs[loc];
      ghost var i, chain := 0, chains[loc];
      HeadOf(cur, chain);
      while cur != null && k != ""
        invariant 0 <= i <= |chain| && cur == (if i < |chain| then chain[i] else null)
        invariant forall j :: 0 <= j < i ==> chain[j].key != k
        decreases |chain| - i
      {
        Present(k, i);
        if k == cur.key {
          return Some(cur.val);
        }
        LinkedAt(kvpairs[loc], chain, i);
        cur := cur.next;
        i := i + 1;
      }
      if k != "" {
        Absent(k);
      }
      return None;
    }

    // ----- put -----

    /** A pair gets a new value. */
    method SetVal(cur: KvPair, v: string)
      requires Valid() && cur in pairs
      modifies cur`val, this`contents
      ensures Valid() && contents == old(contents)[cur.key := v] && cur.key in old(contents)
    {
      hide Chained;
      cur.val := v;
      contents := contents[cur.key := v];
    }

    /** put once there is room: a new pair joins its bucket's chain at the end, or an old one changes. */
    method PutPair(k: string, v: string) returns (ret: int)
      requires Valid()
      modifies this`numEl, this`contents, this`pairs, this`chains, kvpairs, pairs
      ensures Valid() && contents == old(contents)[k := v] && ret == 0
      ensures numEl == old(numEl) + (if k in old(contents) then 0 else 1)
      ensures forall p :: p in pairs ==> p in old(pairs) || fresh(p)
    {
      hide Represents, Chained, Linked, Once, InBucket, Members, Bucket;
      ChainOf(k);
      var slot := Bucket(k, size);
      var cur := kvpairs[slot];
      var add := new KvPair(k, v);
      ghost var i, chain := 0, chains[slot];
      HeadOf(cur, chain);
      if cur == null {
        Absent(k);
        AddFirst(slot, add);
        numEl := numEl + 1;
        return 0;
      }
      LinkedAt(kvpairs[slot], chain, 0);
      while cur.next != null
        modifies {}
        invariant 0 <= i < |chain| && cur == chain[i] && cur.next == (if i + 1 < |chain| then chain[i + 1] else null)
        invariant forall j :: 0 <= j < i ==> chain[j].key != k
        decreases |chain| - i
      {
        Present(k, i);
        if k == cur.key {
          break;
        }
        LinkedAt(kvpairs[slot], chain, i + 1);
        cur := cur.next;
        i := i + 1;
      }
      Present(k, i);
      if k == cur.key {
        SetVal(cur, v);
        return 0;
      }
      Absent(k);
      AddLast(slot, cur, add);
      numEl := numEl + 1;
      return 0;
    }

    method AddFirst(slot: nat, add: KvPair)
      requires Valid() && slot == Bucket(add.key, size) && chains[slot] == [] && add.next == null
      requires add !in pairs && add.key !in contents
      modifies this`contents, this`pairs, this`chains, kvpairs
      ensures Valid() && contents == old(contents)[add.key := add.val] && pairs == old(pairs) + {add}
    {
      hide Represents, InBucket;
      NewPair(add);
      ChainOf(add.key);
      StartsChain(slot, add);
      kvpairs[slot] := add;
      contents := contents[add.key := add.val];
      OthersStay(slot, add, pairs);
      chains := chains[slot := [add]];
      pairs := pairs + {add};
    }

    /** The chains of the other buckets do not care about the new pair. */
    lemma OthersStay(slot: nat, add: KvPair, ps: set<KvPair>)
      requires size > 0 && kvpairs.Length == size == |chains| && slot == Bucket(add.key, size)
      requires forall b :: 0 <= b < size && b != slot ==> InBucket(b, size, kvpairs[b], chains[b], ps)
      ensures forall b :: 0 <= b < size && b != slot ==> InBucket(b, size, kvpairs[b], chains[b], ps + {add})
    {
      forall b | 0 <= b < size && b != slot
        ensures InBucket(b, size, kvpairs[b], chains[b], ps + {add})
      {
        assert InBucket(b, size, kvpairs[b], chains[b], ps);
      }
    }

    lemma StartsChain(slot: nat, add: KvPair)
      requires Chained(kvpairs, size, chains, pairs) && slot == Bucket(add.key, size) && slot < |chains|
      requires chains[slot] == [] && add.next == null
      ensures InBucket(slot, size, add, [add], pairs + {add})
    {
      assert InBucket(slot, size, kvpairs[slot], chains[slot], pairs);
    }

    method AddLast(slot: nat, last: KvPair, add: KvPair)
      requires Valid() && slot == Bucket(add.key, size) && chains[slot] != []
          && chains[slot][|chains[slot]| - 1] == last
      requires add !in pairs && add.key !in contents && add.next == null && last in pairs
      modifies this`contents, this`pairs, this`chains, last`next
      ensures Valid() && contents == old(contents)[add.key := add.val] && pairs == old(pairs) + {add}
    {
      hide Represents, InBucket, Once, Members, Linked;
      NewPair(add);
      ghost var chain := chains[slot];
      ChainOf(add.key);
      LastElsewhere(slot, last, add);
      BeforeLast(kvpairs[slot], chain);
      last.next := add;
      ghost var others := forall b :: 0 <= b < size && b != slot ==> InBucket(b, size, kvpairs[b], chains[b], pairs);
      assert others;
      OthersStay(slot, add, pairs);
      LinkedLonger(kvpairs[slot], chain, add);
      Joined(slot, kvpairs[slot], chain, add, pairs);
      chains := chains[slot := chain + [add]];
      contents := contents[add.key := add.val];
      pairs := pairs + {add};
    }

    lemma Joined(slot: nat, head: KvPair?, chain: seq<KvPair>, add: KvPair, ps: set<KvPair>)
      requires size > 0 && Linked(head, chain + [add]) && Members(slot, size, chain, ps)
      requires add !in ps && Bucket(add.key, size) == slot
      ensures InBucket(slot, size, head, chain + [add], ps + {add})
    {
      OnceMore(chain, add);
    }

    /** Only its own bucket's chain holds the pair. */
    lemma LastElsewhere(slot: nat, last: KvPair, add: KvPair)
      requires Valid() && slot < size == |chains| && last in chains[slot]
      ensures forall b :: 0 <= b < size && b != slot ==> last !in chains[b]
      ensures Members(slot, size, chains[slot], pairs)
    {
      assert InBucket(slot, size, kvpairs[slot], chains[slot], pairs);
      forall b | 0 <= b < size && b != slot
        ensures last !in chains[b]
      {
        assert InBucket(b, size, kvpairs[b], chains[b], pairs);
      }
    }

    lemma NewPair(add: KvPair)
      requires Valid() && add !in pairs && add.key !in contents
      ensures Represents(pairs + {add}, contents[add.key := add.val])
    {
      var more := contents[add.key := add.val];
      forall k | k in more
        ensures exists n :: n in pairs + {add} && n.key == k
      {
        if k != add.key {
          var n :| n in pairs && n.key == k;
          assert n in pairs + {add};
        } else {
          assert add in pairs + {add};
        }
      }
    }

    // ----- remove -----

    /** The loop of remove: on to the pair before the one with the key, or the last one. */
    method FindBefore(loc: nat, first: KvPair, k: string) returns (cur: KvPair, ghost i: nat)
      requires Valid() && loc < |chains| && chains[loc] != [] && first == chains[loc][0] && first.key != k
      requires Linked(first, chains[loc])
      ensures i < |chains[loc]| && cur == chains[loc][i]
      ensures cur.next == if i + 1 < |chains[loc]| then chains[loc][i + 1] else null
      ensures cur.next == null || cur.next.key == k
      ensures forall j :: 0 <= j <= i ==> chains[loc][j].key != k
    {
      hide *;
      ghost var chain := chains[loc];
      cur, i := first, 0;
      LinkedAt(first, chain, 0);
      while cur.next != null && cur.next.key != k
        invariant 0 <= i < |chain| && cur == chain[i] && cur.next == (if i + 1 < |chain| then chain[i + 1] else null)
        invariant forall j :: 0 <= j <= i ==> chain[j].key != k
        decreases |chain| - i
      {
        LinkedAt(first, chain, i + 1);
        cur := cur.next;
        i := i + 1;
      }
    }

    /** remove: 0 when the key was there, -1 when not. */
    method Remove(k: string) returns (ret: int)
      requires Valid()
      modifies this`numEl, this`contents, this`pairs, this`chains, kvpairs, pairs`next
      ensures Valid() && contents == old(contents) - {k} && ret == (if k in old(contents) then 0 else -1)
      ensures State() == Happen(resizeNum, old(State()), RemoveKey(k))
      ensures numEl - |contents| == old(numEl) - |old(contents)|
      ensures pairs <= old(pairs)
    {
      hide NoVoHT.Valid, Happen;
      Removed(resizeNum, State(), k);
      ret := RemovePair(k);
    }

    method RemovePair(k: string) returns (ret: int)
      requires Valid()
      modifies this`numEl, this`contents, this`pairs, this`chains, kvpairs, pairs`next
      ensures Valid() && contents == old(contents) - {k} && ret == (if k in old(contents) then 0 else -1)
      ensures numEl == old(numEl) - (if k in old(contents) then 1 else 0)
      ensures pairs <= old(pairs)
    {
      hide Represents, Chained, Linked, Once, InBucket, Members, Bucket;
      ChainOf(k);
      var loc := Bucket(k, size);
      var cur := kvpairs[loc];
      ghost var i, chain := 0, chains[loc];
      HeadOf(cur, chain);
      if cur == null {
        Absent(k);
        return -1;
      }
      Present(k, 0);
      if k == cur.key {
        UnlinkFirst(loc, cur);
        numEl := numEl - 1;
        return 0;
      }
      cur, i := FindBefore(loc, cur, k);
      if cur.next == null {
        Absent(k);
        return -1;
      }
      Present(k, i + 1);
      Present(k, i);
      UnlinkNext(loc, cur, i);
      numEl := numEl - 1;
      return 0;
    }

    method UnlinkFirst(loc: nat, r: KvPair)
      requires Valid() && loc == Bucket(r.key, size) && chains[loc] != [] && chains[loc][0] == r
      modifies this`contents, this`pairs, this`chains, kvpairs
      ensures Valid() && contents == old(contents) - {r.key} && pairs == old(pairs) - {r}
    {
      hide Represents, InBucket, Once, Members, Linked;
      ghost var chain := chains[loc];
      ChainOf(r.key);
      Owner(loc, 0);
      LostPair(r);
      LinkedTail(kvpairs[loc], chain);
      assert chain[..0] + chain[1..] == chain[1..];
      Parted(loc, r.next, chain, 0, pairs);
      kvpairs[loc] := r.next;
      OthersKeep(loc, r, pairs);
      chains := chains[loc := chain[1..]];
      contents := contents - {r.key};
      pairs := pairs - {r};
      AllChained(kvpairs, size, chains, pairs);
    }

    lemma AllChained(table: array<KvPair?>, n: nat, cs: seq<seq<KvPair>>, ps: set<KvPair>)
      requires n > 0 && table.Length == n == |cs|
      requires forall b :: 0 <= b < n ==> InBucket(b, n, table[b], cs[b], ps)
      ensures Chained(table, n, cs, ps)
    {
      forall b | 0 <= b < n
        ensures forall p :: p in cs[b] ==> p in ps
      {
        assert InBucket(b, n, table[b], cs[b], ps);
      }
    }

    method UnlinkNext(loc: nat, prev: KvPair, ghost i: nat)
      requires Valid() && loc < |chains| && i + 1 < |chains[loc]| && chains[loc][i] == prev && prev in pairs
      requires prev.next == chains[loc][i + 1]
      modifies this`contents, this`pairs, this`chains, prev`next
      ensures Valid() && contents == old(contents) - {old(chains[loc][i + 1].key)}
          && pairs == old(pairs) - {old(chains[loc][i + 1])}
    {
      hide Represents, InBucket, Once, Members, Linked, Bucket;
      ghost var chain := chains[loc];
      var r := prev.next;
      Owner(loc, i + 1);
      Owner(loc, i);
      ChainOf(r.key);
      LostPair(r);
      LastElsewhere(loc, prev, r);
      NextsOf(kvpairs[loc], chain, i);
      prev.next := r.next;
      ghost var others := forall b :: 0 <= b < size && b != loc ==> InBucket(b, size, kvpairs[b], chains[b], pairs);
      assert others;
      OthersKeep(loc, r, pairs);
      LinkedPast(kvpairs[loc], chain, i);
      Parted(loc, kvpairs[loc], chain, i + 1, pairs);
      chains := chains[loc := chain[..i + 1] + chain[i + 2..]];
      contents := contents - {r.key};
      pairs := pairs - {r};
      AllChained(kvpairs, size, chains, pairs);
    }

    /** The pairs of a chain belong to its bucket. */
    lemma Owner(b: nat, k: nat)
      requires Valid() && b < |chains| && k < |chains[b]|
      ensures chains[b][k] in pairs && Bucket(chains[b][k].key, size) == b && b < size
      ensures Linked(kvpairs[b], chains[b]) && Members(b, size, chains[b], pairs)
    {
      assert InBucket(b, size, kvpairs[b], chains[b], pairs);
      assert chains[b][k] in chains[b];
    }

    lemma OthersKeep(slot: nat, r: KvPair, ps: set<KvPair>)
      requires size > 0 && kvpairs.Length == size == |chains| && slot == Bucket(r.key, size) && r in ps
      requires forall b :: 0 <= b < size && b != slot ==> InBucket(b, size, kvpairs[b], chains[b], ps)
      ensures forall b :: 0 <= b < size && b != slot ==> InBucket(b, size, kvpairs[b], chains[b], ps - {r})
    {
      forall b | 0 <= b < size && b != slot
        ensures InBucket(b, size, kvpairs[b], chains[b], ps - {r})
      {
        assert InBucket(b, size, kvpairs[b], chains[b], ps);
      }
    }

    lemma LostPair(r: KvPair)
      requires Valid() && r in pairs
      ensures Represents(pairs - {r}, contents - {r.key}) && r.key in contents
    {
      var fewer := contents - {r.key};
      forall k | k in fewer
        ensures exists n :: n in pairs - {r} && n.key == k
      {
        var n :| n in pairs && n.key == k;
        assert n in pairs - {r};
      }
    }

    lemma Parted(slot: nat, head: KvPair?, chain: seq<KvPair>, i: nat, ps: set<KvPair>)
      requires size > 0 && i < |chain| && Linked(head, chain[..i] + chain[i + 1..]) && Members(slot, size, chain, ps)
      ensures InBucket(slot, size, head, chain[..i] + chain[i + 1..], ps - {chain[i]})
    {
      OnceLess(chain, i);
    }

    // ----- resize -----

    /** Every bucket of a table that is being filled. */
    ghost predicate Filling(table: array<KvPair?>, cs: seq<seq<KvPair>>, done: set<KvPair>)
      reads table, done`next
    {
      && table.Length == |cs| > 0
      && (forall b :: 0 <= b < |cs| ==> forall p :: p in cs[b] ==> p in done)
      && forall b :: 0 <= b < |cs| ==> InBucket(b, |cs|, table[b], cs[b], done)
    }

    /** One pair is put at the front of its new chain. */
    method MovePair(table: array<KvPair?>, cur: KvPair, ghost cs: seq<seq<KvPair>>, ghost done: set<KvPair>)
        returns (rest: KvPair?, ghost cs': seq<seq<KvPair>>)
      requires Filling(table, cs, done) && cur !in done
      modifies table, cur`next
      ensures rest == old(cur.next) && |cs'| == |cs| && Filling(table, cs', done + {cur})
    {
      hide InBucket, Members, Once, Bucket;
      var pos := Bucket(cur.key, table.Length);
      FrontPair(table, cs, done, cur, pos);
      var tmp := table[pos];
      table[pos] := cur;
      rest := cur.next;
      cur.next := tmp;
      cs' := cs[pos := [cur] + cs[pos]];
      NewFront(tmp, cs[pos], cur);
      ghost var members := Members(pos, |cs|, [cur] + cs[pos], done + {cur});
      assert members;
      InBucketIs(pos, |cs|, cur, [cur] + cs[pos], done + {cur});
      forall b | 0 <= b < |cs| && b != pos
        ensures InBucket(b, |cs|, table[b], cs[b], done)
      {
      }
      FillingOn(table, cs, cs', done, cur, pos);
    }

    lemma InBucketIs(b: nat, n: nat, head: KvPair?, chain: seq<KvPair>, ps: set<KvPair>)
      requires n > 0 && Linked(head, chain) && Members(b, n, chain, ps)
      ensures InBucket(b, n, head, chain, ps)
    {
    }

    lemma FrontPair(table: array<KvPair?>, cs: seq<seq<KvPair>>, done: set<KvPair>, cur: KvPair, pos: nat)
      requires Filling(table, cs, done) && cur !in done && pos == Bucket(cur.key, |cs|)
      ensures Linked(table[pos], cs[pos]) && cur !in cs[pos]
      ensures forall b :: 0 <= b < |cs| ==> cur !in cs[b]
      ensures Members(pos, |cs|, [cur] + cs[pos], done + {cur})
    {
      assert InBucket(pos, |cs|, table[pos], cs[pos], done);
      OnceFront(cs[pos], cur);
    }

    lemma FillingOn(table: array<KvPair?>, cs: seq<seq<KvPair>>, cs': seq<seq<KvPair>>, done: set<KvPair>,
        cur: KvPair, pos: nat)
      requires pos < |cs| == |cs'| == table.Length && cs' == cs[pos := cs'[pos]] && pos == Bucket(cur.key, |cs|)
      requires InBucket(pos, |cs|, table[pos], cs'[pos], done + {cur})
      requires forall b :: 0 <= b < |cs| && b != pos ==> InBucket(b, |cs|, table[b], cs[b], done)
      ensures Filling(table, cs', done + {cur})
    {
      forall b | 0 <= b < |cs|
        ensures InBucket(b, |cs|, table[b], cs'[b], done + {cur}) && forall p :: p in cs'[b] ==> p in done + {cur}
      {
        if b != pos {
          assert InBucket(b, |cs|, table[b], cs[b], done);
        }
      }
    }

    /** All pairs of one old chain move. */
    method MoveChain(table: array<KvPair?>, head: KvPair?, ghost chain: seq<KvPair>, ghost cs: seq<seq<KvPair>>,
        ghost done: set<KvPair>)
        returns (ghost cs': seq<seq<KvPair>>, ghost done': set<KvPair>)
      requires Filling(table, cs, done) && Linked(head, chain) && Once(chain) && forall x :: x in chain ==> x !in done
      modifies table, (set x | x in chain)`next
      ensures |cs'| == |cs| && Filling(table, cs', done')
      ensures forall x :: x in done' <==> x in done || x in chain
    {
      hide Filling, Linked, Once;
      var cur := head;
      cs', done' := cs, done;
      ghost var k := 0;
      assert chain[0..] == chain;
      while cur != null
        invariant 0 <= k <= |chain| && Linked(cur, chain[k..]) && |cs'| == |cs| && Filling(table, cs', done')
        invariant forall x :: x in done' <==> x in done || x in chain[..k]
        decreases |chain| - k
      {
        NextOfRest(cur, chain, k);
        ghost var moved := cur;
        cur, cs' := MovePair(table, cur, cs', done');
        done' := done' + {moved};
        k := k + 1;
      }
      NothingLeft(chain, k);
    }

    /** resize: the pairs move into a table of ns buckets, in place. The count of pairs is cleared and not rebuilt. */
    method Resize(ns: nat)
      requires Valid() && ns > 0
      modifies this`kvpairs, this`size, this`numEl, this`chains, pairs`next
      ensures Valid() && contents == old(contents) && pairs == old(pairs) && size == ns && numEl == 0 && fresh(kvpairs)
    {
      hide Filling, Linked, Once, Members, Represents, InBucket, Bucket;
      var olds, oldpairs := size, kvpairs;
      ghost var oldchains, cs, done: set<KvPair> := chains, seq(ns, _ => []), {};
      var table := new KvPair?[ns](_ => null);
      NothingMoved(table, cs);
      OldChains();
      numEl := 0;
      for i := 0 to olds
        modifies table, pairs`next
        invariant |cs| == ns
        invariant Filling(table, cs, done)
        invariant forall b :: i <= b < olds ==> Linked(oldpairs[b], oldchains[b])
        invariant forall p :: p in done <==> p in pairs && Bucket(p.key, olds) < i
      {
        OneChain(i, done);
        OtherChains(i);
        cs, done := MoveChain(table, oldpairs[i], oldchains[i], cs, done);
      }
      AllFilled(table, cs, done, pairs, olds);
      size := ns;
      kvpairs := table;
      chains := cs;
    }

    lemma NothingMoved(table: array<KvPair?>, cs: seq<seq<KvPair>>)
      requires table.Length == |cs| > 0
      requires forall b :: 0 <= b < |cs| ==> cs[b] == [] && table[b] == null
      ensures Filling(table, cs, {})
    {
    }

    lemma OldChains()
      requires Valid()
      ensures |chains| == size == kvpairs.Length
      ensures forall b :: 0 <= b < size ==> Linked(kvpairs[b], chains[b]) && Members(b, size, chains[b], pairs)
    {
    }

    lemma OneChain(i: nat, done: set<KvPair>)
      requires size > 0 && i < size == |chains| && Members(i, size, chains[i], pairs)
      requires forall p :: p in done <==> p in pairs && Bucket(p.key, size) < i
      ensures Once(chains[i]) && forall x :: x in chains[i] ==> x !in done && x in pairs
      ensures forall p :: p in pairs ==> (p in chains[i] <==> Bucket(p.key, size) == i)
    {
    }

    lemma OtherChains(i: nat)
      requires size > 0 && i < size == |chains|
      requires forall b :: 0 <= b < size ==> Members(b, size, chains[b], pairs)
      ensures forall b, x :: i < b < size && x in chains[b] ==> x !in chains[i]
    {
      forall b, x | i < b < size && x in chains[b]
        ensures x !in chains[i]
      {
        assert Members(b, size, chains[b], pairs) && Members(i, size, chains[i], pairs);
      }
    }

    lemma AllFilled(table: array<KvPair?>, cs: seq<seq<KvPair>>, done: set<KvPair>, ps: set<KvPair>, n: nat)
      requires Filling(table, cs, done) && n > 0 && forall p :: p in done <==> p in ps && Bucket(p.key, n) < n
      ensures Chained(table, |cs|, cs, ps)
    {
      assert done == ps;
    }

    /** put: a table that is full for its load factor doubles first. */
    method Put(k: string, v: string) returns (ret: int)
      requires Valid()
      modifies this`kvpairs, this`size, this`numEl, this`chains, this`contents, this`pairs, kvpairs, pairs
      ensures Valid() && contents == old(contents)[k := v] && ret == 0
      ensures State() == Happen(resizeNum, old(State()), PutKey(k, v))
      ensures size == if resizeNum != 0.0 && old(numEl) as real >= old(size) as real * resizeNum then 2 * old(size)
                      else old(size)
      ensures numEl - |contents| == (if old(State()).Full(resizeNum) then 0 else old(numEl)) - |old(contents)|
      ensures old(State()).CountRight() ==>
                (State().CountRight() <==> !old(State()).Full(resizeNum) || old(contents) == map[])
      ensures forall p :: p in pairs ==> p in old(pairs) || fresh(p)
      ensures kvpairs == old(kvpairs) || fresh(kvpairs)
    {
      hide Represents, Chained;
      if numEl as real >= size as real * resizeNum {
        if resizeNum != 0.0 {
          SizePositive();
          Resize(size * 2);
        }
      }
      CountDrift(resizeNum, old(State()), PutKey(k, v));
      ret := PutPair(k, v);
    }

    lemma SizePositive()
      requires Valid()
      ensures size > 0
    {
    }
  }

  /** A resize that loses the count: here it ends below zero although the table is empty. */
  lemma CountAfterResize()
    ensures var t1 := Happen(1.0, Table(1, 0, map[]), PutKey("a", "1"));
            var t2 := Happen(1.0, t1, PutKey("b", "2"));
            var t3 := Happen(1.0, t2, RemoveKey("a"));
            var t4 := Happen(1.0, t3, RemoveKey("b"));
            t4.numEl == -1 && t4.contents == map[]
  {
    var t1 := Happen(1.0, Table(1, 0, map[]), PutKey("a", "1"));
    assert t1 == Table(1, 1, map["a" := "1"]);
    var t2 := Happen(1.0, t1, PutKey("b", "2"));
    assert t2 == Table(2, 1, map["a" := "1", "b" := "2"]);
    var t3 := Happen(1.0, t2, RemoveKey("a"));
    assert t3 == Table(2, 0, map["b" := "2"]);
  }

  lemma HeadOf(head: KvPair?, chain: seq<KvPair>)
    requires Linked(head, chain)
    ensures head == if chain == [] then null else chain[0]
  {
  }

  lemma OnceMore(chain: seq<KvPair>, add: KvPair)
    requires Once(chain) && add !in chain
    ensures Once(chain + [add])
    ensures forall x :: x in chain + [add] <==> x in chain || x == add
  {
  }

  lemma BeforeLast(head: KvPair?, chain: seq<KvPair>)
    requires Linked(head, chain) && Once(chain) && chain != []
    ensures forall i, j :: 0 <= i < j < |chain| && j == i + 1 ==> chain[i].next == chain[j]
    ensures head == chain[0]
    ensures forall i :: 0 <= i < |chain| - 1 ==> chain[i] != chain[|chain| - 1]
  {
  }

  lemma LinkedLonger(head: KvPair?, chain: seq<KvPair>, add: KvPair)
    requires chain != [] && head == chain[0] && chain[|chain| - 1].next == add && add.next == null
    requires forall i, j :: 0 <= i < j < |chain| && j == i + 1 ==> chain[i].next == chain[j]
    ensures Linked(head, chain + [add])
  {
  }

  lemma OnceLess(chain: seq<KvPair>, i: nat)
    requires Once(chain) && i < |chain|
    ensures Once(chain[..i] + chain[i + 1..])
    ensures forall x :: x in chain[..i] + chain[i + 1..] <==> x in chain && x != chain[i]
  {
    var fewer := chain[..i] + chain[i + 1..];
    forall x | x in chain && x != chain[i]
      ensures x in fewer
    {
      var j :| 0 <= j < |chain| && chain[j] == x;
      assert fewer[if j < i then j else j - 1] == x;
    }
    forall x | x in fewer
      ensures x in chain && x != chain[i]
    {
      var j :| 0 <= j < |fewer| && fewer[j] == x;
      assert chain[if j < i then j else j + 1] == x;
    }
  }

  lemma NextsOf(head: KvPair?, chain: seq<KvPair>, i: nat)
    requires Linked(head, chain) && Once(chain) && i + 1 < |chain|
    ensures forall j :: 0 <= j < |chain| && j != i ==> chain[j] != chain[i]
    ensures forall j, k :: 0 <= j < k < |chain| && k == j + 1 ==> chain[j].next == chain[k]
    ensures head == chain[0] && chain[|chain| - 1].next == null
  {
  }

  /** The chain that passes over its pair i + 1. */
  lemma LinkedPast(head: KvPair?, chain: seq<KvPair>, i: nat)
    requires i + 1 < |chain| && head == chain[0]
    requires chain[i].next == chain[i + 1].next
    requires forall j, k :: 0 <= j < k < |chain| && k == j + 1 && j != i ==> chain[j].next == chain[k]
    requires chain[|chain| - 1].next == null
    ensures Linked(head, chain[..i + 1] + chain[i + 2..])
  {
    var fewer := chain[..i + 1] + chain[i + 2..];
    forall j, k | 0 <= j < k < |fewer| && k == j + 1
      ensures fewer[j].next == fewer[k]
    {
      if j > i { assert fewer[j] == chain[j + 1] && fewer[k] == chain[k + 1]; }
      if j == i { assert fewer[k] == chain[i + 2] && chain[i + 1].next == chain[i + 2]; }
    }
  }

  lemma OnceFront(chain: seq<KvPair>, x: KvPair)
    requires Once(chain) && x !in chain
    ensures Once([x] + chain)
    ensures forall y :: y in [x] + chain <==> y in chain || y == x
  {
  }

  lemma NewFront(head: KvPair?, chain: seq<KvPair>, x: KvPair)
    requires Linked(head, chain) && x.next == head && x !in chain
    ensures Linked(x, [x] + chain)
  {
    var more := [x] + chain;
    forall i, j | 0 <= i < j < |more| && j == i + 1
      ensures more[i].next == more[j]
    {
      if i > 0 { assert more[i] == chain[i - 1] && more[j] == chain[j - 1]; }
    }
  }

  /** The pair at the head of what is left of a chain. */
  lemma NextOfRest(cur: KvPair, chain: seq<KvPair>, k: nat)
    requires k <= |chain| && Linked(cur, chain[k..]) && Once(chain)
    ensures k < |chain| && cur == chain[k] && Linked(cur.next, chain[k + 1..]) && cur !in chain[k + 1..]
        && cur !in chain[..k]
    ensures forall x :: x in chain[..k + 1] <==> x in chain[..k] || x == cur
  {
    LinkedTail(cur, chain[k..]);
    assert chain[k..][1..] == chain[k + 1..];
    assert chain[..k + 1] == chain[..k] + [chain[k]];
  }

  lemma NothingLeft(chain: seq<KvPair>, k: nat)
    requires k <= |chain| && Linked(null, chain[k..])
    ensures chain[..k] == chain
  {
  }
}
