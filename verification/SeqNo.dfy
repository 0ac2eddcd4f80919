/**
 31-bit circular sequence numbers (class CSeqNo, src/udt/src/common.h). Wrap projects an unbounded
 number onto the circle; the operations below are exact on numbers that lie within a window of
 each other.
 */
module SeqNo {
  import opened Common

  const SEQ_NO_TH := 0x3FFF_FFFF
  const MAX_SEQ_NO := 0x7FFF_FFFF
  const CIRCLE := 0x8000_0000

  ghost predicate IsSeqNo(s: int) {
    0 <= s <= MAX_SEQ_NO
  }

  function Abs(x: int): nat {
    if x < 0 then -x else x
  }

  function SeqCmp(seq1: int, seq2: int): int {
    if Abs(seq1 - seq2) < SEQ_NO_TH then seq1 - seq2 else seq2 - seq1
  }

  function SeqLen(seq1: int, seq2: int): int {
    if seq1 <= seq2 then seq2 - seq1 + 1 else seq2 - seq1 + MAX_SEQ_NO + 2
  }

  function SeqOff(seq1: int, seq2: int): int {
    if Abs(seq1 - seq2) < SEQ_NO_TH then seq2 - seq1
    else if seq1 < seq2 then seq2 - seq1 - MAX_SEQ_NO - 1
    else seq2 - seq1 + MAX_SEQ_NO + 1
  }

  function IncSeq(s: int): int {
    if s == MAX_SEQ_NO then 0 else s + 1
  }

  function DecSeq(s: int): int {
    if s == 0 then MAX_SEQ_NO else s - 1
  }

  function IncSeqBy(s: int, inc: int): int {
    if MAX_SEQ_NO - s >= inc then s + inc else s - MAX_SEQ_NO + inc - 1
  }

  /** The number on the circle that stands for n. */
  function Wrap(n: int): (s: int)
    ensures 0 <= s <= MAX_SEQ_NO
  {
    n % CIRCLE
  }

  /** Close enough for comparison: less than half the circle apart. */
  ghost predicate Near(a: int, b: int) {
    -SEQ_NO_TH < a - b < SEQ_NO_TH
  }

  /** Adding multiples of the circle changes nothing, and nothing else is confused. */
  lemma WrapUnique(n: int, s: int, turns: int)
    requires 0 <= s < CIRCLE && n == s + turns * CIRCLE
    ensures Wrap(n) == s
  {
  }

  lemma WrapDifference(a: int, b: int)
    requires -CIRCLE < b - a < CIRCLE
    ensures Wrap(b) - Wrap(a) == b - a || Wrap(b) - Wrap(a) == b - a - CIRCLE || Wrap(b) - Wrap(a) == b - a + CIRCLE
    ensures Wrap(a) == Wrap(b) <==> a == b
  {
    assert a == Wrap(a) + (a / CIRCLE) * CIRCLE;
    assert b == Wrap(b) + (b / CIRCLE) * CIRCLE;
  }

  /** seqoff recovers the distance between any two numbers of a window. */
  lemma OffExact(a: int, b: int)
    requires Near(a, b)
    ensures SeqOff(Wrap(a), Wrap(b)) == b - a
  {
    WrapDifference(a, b);
  }

  /** seqcmp orders a window as the unbounded numbers are ordered. */
  lemma CmpExact(a: int, b: int)
    requires Near(a, b)
    ensures SeqCmp(Wrap(a), Wrap(b)) > 0 <==> a > b
    ensures SeqCmp(Wrap(a), Wrap(b)) == 0 <==> a == b
    ensures SeqCmp(Wrap(a), Wrap(b)) < 0 <==> a < b
  {
    WrapDifference(a, b);
  }

  /** seqlen counts an inclusive circular range. */
  lemma LenExact(a: int, b: int)
    requires a <= b < a + CIRCLE
    ensures SeqLen(Wrap(a), Wrap(b)) == b - a + 1
  {
    WrapDifference(a, b);
  }

  lemma IncExact(n: int)
    ensures IncSeq(Wrap(n)) == Wrap(n + 1)
    ensures DecSeq(Wrap(n)) == Wrap(n - 1)
  {
    WrapDifference(n, n + 1);
    WrapDifference(n - 1, n);
  }

  /** incseq(., inc) adds, for any increment of less than a full circle. */
  lemma IncByExact(n: int, inc: int)
    requires 0 <= inc < CIRCLE
    ensures IncSeqBy(Wrap(n), inc) == Wrap(n + inc)
  {
    WrapDifference(n, n + inc);
  }

  /** Increments compose, and the single step undoes the single step back, on every sequence number. */
  lemma IncByAdds(s: int, i: int, j: int)
    requires IsSeqNo(s) && 0 <= i && 0 <= j && i + j < CIRCLE
    ensures IncSeqBy(IncSeqBy(s, i), j) == IncSeqBy(s, i + j)
    ensures IncSeqBy(s, 1) == IncSeq(s) && DecSeq(IncSeq(s)) == s && IncSeq(DecSeq(s)) == s
  {
    IncByExact(s, i);
    IncByExact(s, i + j);
    IncByExact(s + i, j);
  }

  /** Moving by the offset always arrives, however far apart the two numbers are. */
  lemma OffArrives(s1: int, s2: int)
    requires IsSeqNo(s1) && IsSeqNo(s2)
    ensures Wrap(s1 + SeqOff(s1, s2)) == s2
    ensures Abs(SeqOff(s1, s2)) <= SEQ_NO_TH + 2
  {
    var d := SeqOff(s1, s2);
    if d != s2 - s1 {
      WrapUnique(s1 + d, s2, if s1 < s2 then -1 else 1);
    }
  }

  /** Inside a window seqcmp is a strict total order. */
  lemma CmpIsOrder(base: int, i: int, j: int, k: int)
    requires 0 <= i < SEQ_NO_TH && 0 <= j < SEQ_NO_TH && 0 <= k < SEQ_NO_TH
    ensures var x, y, z := Wrap(base + i), Wrap(base + j), Wrap(base + k);
            && (SeqCmp(x, y) < 0 && SeqCmp(y, z) < 0 ==> SeqCmp(x, z) < 0)
            && (SeqCmp(x, y) < 0 <==> SeqCmp(y, x) > 0)
            && (SeqCmp(x, y) == 0 <==> x == y)
  {
    CmpExact(base + i, base + j);
    CmpExact(base + j, base + i);
    CmpExact(base + j, base + k);
    CmpExact(base + i, base + k);
    WrapDifference(base + i, base + j);
  }

  /** Positions in a ring of a given size: one step past the end is the start again. */
  function Move(pos: int, d: int, size: int): int {
    if pos + d < 0 then pos + d + size else if pos + d < size then pos + d else pos + d - size
  }

  lemma ModIsMove(pos: int, d: int, size: int)
    requires 0 <= pos < size && -size <= d < size
    ensures (pos + d + size) % size == Move(pos, d, size)
    ensures 0 <= d ==> (pos + d) % size == Move(pos, d, size)
  {
    ModTurn(pos + d, size);
    ModTurn(pos + d + size, size);
    if pos + d < 0 {
      ModSmall(pos + d + size, size);
    } else if pos + d < size {
      ModSmall(pos + d, size);
    } else {
      ModTurn(pos + d - size, size);
      ModSmall(pos + d - size, size);
    }
  }

  lemma ModSmall(x: int, size: int)
    requires 0 <= x < size
    ensures x % size == x
  {
  }

  lemma ModTurn(x: int, size: int)
    requires 0 < size
    ensures (x + size) % size == x % size
  {
    var q, q1 := x / size, (x + size) / size;
    Quotient(x, size);
    Quotient(x + size, size);
    assert (q1 - q - 1) * size == q1 * size - q * size - size;
    Multiples(q1 - q - 1, size);
  }

  lemma Quotient(x: int, size: int)
    requires 0 < size
    ensures x == (x / size) * size + x % size
  {
  }

  lemma WrapSelf(n: int)
    requires 0 <= n <= MAX_SEQ_NO
    ensures Wrap(n) == n
  {
  }
}
