/** Shared value types and small facts about sets and sequences of blocks. */
module Common {
  datatype Option<+T> = None | Some(value: T)

  type byte = b: int | 0 <= b < 256

  /** A packet payload. */
  type Block = seq<byte>

  /** A closed interval of sequence numbers. */
  datatype Range = Range(lo: int, hi: int)

  function Max(a: int, b: int): int {
    if a < b then b else a
  }

  function Min(a: int, b: int): int {
    if a < b then a else b
  }

  lemma PickOne<T>(s: set<T>) returns (y: T)
    requires s != {}
    ensures y in s
  {
    y :| y in s;
  }

  lemma HasElement(s: set<int>)
    requires s != {}
    ensures exists y: int :: y in s
  {
    var y := PickOne(s);
  }

  /** The least element of a non-empty set. */
  ghost function Least(s: set<int>): (m: int)
    requires s != {}
    ensures m in s && forall x :: x in s ==> m <= x
  {
    HasElement(s);
    var y :| y in s;
    if s == {y} then
      y
    else
      assert forall z :: z in s ==> z == y || z in s - {y};
      Min(y, Least(s - {y}))
  }

  /** The integers from lo to hi, both included. */
  function Span(lo: int, hi: int): (s: set<int>)
    ensures forall x :: x in s <==> lo <= x <= hi
    ensures |s| == if lo <= hi then hi - lo + 1 else 0
    decreases hi - lo + 1
  {
    if lo <= hi then Span(lo, hi - 1) + {hi} else {}
  }

  lemma ConcatAssoc<T>(a: seq<T>, b: seq<T>, c: seq<T>)
    ensures (a + b) + c == a + (b + c)
  {
  }

  /** The byte stream carried by a sequence of blocks. */
  function Flatten(bs: seq<Block>): seq<byte> {
    if bs == [] then [] else Flatten(bs[..|bs| - 1]) + bs[|bs| - 1]
  }

  lemma {:induction false} FlattenConcat(a: seq<Block>, b: seq<Block>)
    ensures Flatten(a + b) == Flatten(a) + Flatten(b)
  {
    if b == [] {
      assert a + b == a;
    } else {
      var b' := b[..|b| - 1];
      FlattenConcat(a, b');
      assert (a + b)[..|a + b| - 1] == a + b';
    }
  }

  lemma {:induction false} FlattenPrefix(bs: seq<Block>, k: nat)
    requires k <= |bs|
    ensures Flatten(bs[..k]) <= Flatten(bs)
  {
    assert bs[..k] + bs[k..] == bs;
    FlattenConcat(bs[..k], bs[k..]);
  }

  lemma {:induction false} FlattenSnoc(bs: seq<Block>, k: nat)
    requires k < |bs|
    ensures Flatten(bs[..k + 1]) == Flatten(bs[..k]) + bs[k]
  {
    assert bs[..k + 1][..k] == bs[..k];
  }

  lemma {:induction false} FlattenHead(bs: seq<Block>)
    requires bs != []
    ensures Flatten(bs) == bs[0] + Flatten(bs[1..])
  {
    var first := [bs[0]];
    assert first[..0] == [];
    assert first + bs[1..] == bs;
    FlattenConcat(first, bs[1..]);
  }

  /** CSndBuffer::addBuffer cuts the data into payloads of at most mss bytes. */
  function Chunks(data: seq<byte>, mss: nat): seq<Block>
    requires mss >= 1
    decreases |data|
  {
    if data == [] then []
    else if |data| <= mss then [data]
    else [data[..mss]] + Chunks(data[mss..], mss)
  }

  lemma {:induction false} ChunksFlatten(data: seq<byte>, mss: nat)
    requires mss >= 1
    ensures Flatten(Chunks(data, mss)) == data
    ensures forall i :: 0 <= i < |Chunks(data, mss)| ==> 0 < |Chunks(data, mss)[i]| <= mss
    decreases |data|
  {
    if |data| > mss {
      ChunksFlatten(data[mss..], mss);
      FlattenHead(Chunks(data, mss));
      assert data == data[..mss] + data[mss..];
    } else if data != [] {
      FlattenSnoc([data], 0);
      assert [data][..1] == [data];
    }
  }

  /** How many payloads `len` bytes make: a full division, plus one for a rest. */
  function PacketCount(len: nat, mss: nat): nat
    requires mss >= 1
  {
    len / mss + if len % mss != 0 then 1 else 0
  }

  lemma {:induction false} ChunksCount(data: seq<byte>, mss: nat)
    requires mss >= 1
    ensures |Chunks(data, mss)| == PacketCount(|data|, mss)
    decreases |data|
  {
    if |data| > mss {
      ChunksCount(data[mss..], mss);
      DivStep(|data|, mss);
    } else if |data| == mss {
      assert mss / mss == 1 && mss % mss == 0;
    } else {
      assert |data| / mss == 0 && |data| % mss == |data|;
    }
  }

  /** The i-th payload starts i * mss bytes in. */
  lemma {:induction false} ChunkAt(data: seq<byte>, mss: nat, i: nat)
    requires mss >= 1 && i < |Chunks(data, mss)|
    ensures 0 <= i * mss < |data|
    ensures Chunks(data, mss)[i] == data[i * mss..i * mss + Min(|data| - i * mss, mss)]
    decreases i
  {
    if i > 0 {
      var rest := data[mss..];
      ChunkAt(rest, mss, i - 1);
      assert (i - 1) * mss + mss == i * mss;
      var d := (i - 1) * mss;
      assert rest[d..d + Min(|rest| - d, mss)] == data[d + mss..d + mss + Min(|rest| - d, mss)];
    } else {
      assert 0 * mss == 0;
    }
  }

  lemma DivStep(n: nat, d: nat)
    requires d >= 1 && n >= d
    ensures n / d == (n - d) / d + 1 && n % d == (n - d) % d
  {
    var q, r := (n - d) / d, (n - d) % d;
    DivParts(n - d, d);
    assert n == (q + 1) * d + r;
    DivUnique(n, d, q + 1, r);
  }

  lemma DivUnique(n: nat, d: nat, q: nat, r: nat)
    requires d >= 1 && n == q * d + r && r < d
    ensures n / d == q && n % d == r
  {
    DivParts(n, d);
    var k := n / d - q;
    assert k * d == (n / d) * d - q * d;
    Multiples(k, d);
  }

  lemma DivParts(n: nat, d: nat)
    requires d >= 1
    ensures n == (n / d) * d + n % d && 0 <= n % d < d
  {
  }

  lemma Multiples(k: int, d: int)
    requires d >= 1
    ensures k >= 1 ==> k * d >= d
    ensures k <= -1 ==> k * d + d <= 0
  {
  }
}
