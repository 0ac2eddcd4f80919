/**
 Streaming MD5 (src/udt/src/md5.cpp): a message arrives in pieces of any size; the digest is that of the whole.
 The block function is any function of the registers and 64 bytes.
 */
module Md5 {
  import opened Common

  const WORD := 0x1_0000_0000

  type Word = x: int | 0 <= x < 0x1_0000_0000

  /** The four registers. */
  datatype Words = Words(a: Word, b: Word, c: Word, d: Word)

  const INITIAL := Words(0x6745_2301, 0xefcd_ab89, 0x98ba_dcfe, 0x1032_5476)

  // ----- sections 3.1 to 3.5 of RFC 1321 -----

  /** The block function applied to one block after the other. */
  function Fold(process: (Words, Block) -> Words, data: Block): Words
    decreases |data|
  {
    if |data| < 64 then INITIAL else process(Fold(process, data[..|data| - 64]), data[|data| - 64..])
  }

  function Zeros(n: nat): (zs: Block)
    ensures |zs| == n && forall i :: 0 <= i < n ==> zs[i] == 0
  {
    seq(n, _ => 0)
  }

  /** The i-th byte of a number, low-order first. */
  function ByteOf(x: nat, i: nat): byte {
    if i == 0 then (x % 256) as byte else ByteOf(x / 256, i - 1)
  }

  /** A length in bits as eight bytes, low-order first, modulo 2^64. */
  function LengthBytes(bits: nat): (bs: Block)
    ensures |bs| == 8
  {
    seq(8, i requires 0 <= i < 8 => ByteOf(bits, i))
  }

  /** How many zero bytes follow the 0x80. */
  function PadZeros(n: nat): nat {
    (55 - n) % 64
  }

  /** The message, a one bit, zeros up to 56 bytes modulo 64, and the length. */
  function Padded(m: Block): (p: Block)
    ensures |p| % 64 == 0
  {
    PaddedLength(|m|);
    m + [0x80] + Zeros(PadZeros(|m|)) + LengthBytes(8 * |m|)
  }

  lemma PaddedLength(n: nat)
    ensures (n + 1 + PadZeros(n)) % 64 == 56 && (n + 1 + PadZeros(n) + 8) % 64 == 0
  {
  }

  /** The registers as sixteen bytes, low-order first. */
  function DigestBytes(w: Words): (bs: Block)
    ensures |bs| == 16
  {
    seq(16, i requires 0 <= i < 16 => ByteOf(Register(w, i / 4), i % 4))
  }

  function Register(w: Words, i: nat): Word {
    if i == 0 then w.a else if i == 1 then w.b else if i == 2 then w.c else w.d
  }

  function Digest(process: (Words, Block) -> Words, m: Block): Block {
    DigestBytes(Fold(process, Padded(m)))
  }

  // ----- the 64-bit count in two words -----

  lemma Quotient(x: int, q: int, r: int)
    requires x == q * WORD + r && 0 <= r < WORD
    ensures x / WORD == q && x % WORD == r
  {
  }

  /** Adding the bits of k bytes, with the carry taken from the wrapped low word. */
  lemma CountAdds(n: nat, k: nat)
    ensures var c0, c1, bits := 8 * n % WORD, 8 * n / WORD % WORD, 8 * k % WORD;
            var d0 := (c0 + bits) % WORD;
            var d1 := (c1 + k / 0x2000_0000) % WORD;
            && d0 == 8 * (n + k) % WORD
            && (if d0 < bits then (d1 + 1) % WORD else d1) == 8 * (n + k) / WORD % WORD
  {
    var q1, c0, q2, bits := 8 * n / WORD, 8 * n % WORD, 8 * k / WORD, 8 * k % WORD;
    assert q2 == k / 0x2000_0000;
    var carry := if c0 + bits < WORD then 0 else 1;
    Quotient(8 * (n + k), q1 + q2 + carry, c0 + bits - carry * WORD);
    var c1, p := q1 % WORD, q1 / WORD;
    assert q1 == p * WORD + c1;
  }

  /** Where in the current block the next byte goes. */
  lemma OffsetIs(n: nat)
    ensures 8 * n % WORD / 8 % 64 == n % 64
  {
  }

  /** The two words of the count hold the eight bytes of the length. */
  lemma LengthFromWords(bits: nat, i: nat)
    requires i < 8
    ensures ByteOf(bits, i) == ByteOf(if i < 4 then bits % WORD else bits / WORD % WORD, i % 4)
  {
    if i < 4 {
      LowBytes(bits, i);
    } else {
      HighBytes(bits, i - 4);
      LowBytes(bits / WORD, i - 4);
    }
  }

  function Pow256(k: nat): (p: nat)
    ensures p >= 1
  {
    if k == 0 then 1 else 256 * Pow256(k - 1)
  }

  /** The low bytes do not depend on what lies above them. */
  lemma {:induction false} BytesBelow(q: nat, r: nat, k: nat, i: nat)
    requires i < k
    ensures ByteOf(q * Pow256(k) + r, i) == ByteOf(r, i)
    decreases i
  {
    var t := q * Pow256(k - 1);
    Regroup(q, Pow256(k - 1));
    assert q * Pow256(k) + r == 256 * t + r;
    if i > 0 {
      assert (256 * t + r) / 256 == t + r / 256;
      BytesBelow(q, r / 256, k - 1, i - 1);
    }
  }

  lemma Regroup(q: nat, p: nat)
    ensures q * (256 * p) == 256 * (q * p)
  {
  }

  lemma LowBytes(x: nat, i: nat)
    requires i < 4
    ensures ByteOf(x % WORD, i) == ByteOf(x, i)
  {
    PowersOf256();
    BytesBelow(x / WORD, x % WORD, 4, i);
  }

  lemma HighBytes(x: nat, i: nat)
    ensures ByteOf(x, i + 4) == ByteOf(x / WORD, i)
  {
    var y := x / 256;
    assert ByteOf(x, i + 4) == ByteOf(y, i + 3) == ByteOf(y / 256, i + 2) == ByteOf(y / 256 / 256, i + 1);
    assert ByteOf(y / 256 / 256, i + 1) == ByteOf(y / 256 / 256 / 256, i);
    assert y / 256 / 256 / 256 == x / WORD;
  }

  lemma FoldStep(process: (Words, Block) -> Words, data: Block, block: Block, all: Block)
    requires |data| % 64 == 0 && |block| == 64 && all == data + block
    ensures Fold(process, all) == process(Fold(process, data), block)
  {
    assert all[..|data|] == data && all[|data|..] == block;
  }

  // ----- what the padded message and the digest are, read as numbers -----

  /** Bytes read as a number, low-order first. */
  function Value(bs: Block): nat {
    if bs == [] then 0 else bs[0] as nat + 256 * Value(bs[1..])
  }

  lemma {:induction false} ValueOfBytes(bs: Block, x: nat)
    requires forall i :: 0 <= i < |bs| ==> bs[i] == ByteOf(x, i)
    ensures Value(bs) == x % Pow256(|bs|)
    decreases |bs|
  {
    if bs != [] {
      var rest := bs[1..];
      forall i | 0 <= i < |rest|
        ensures rest[i] == ByteOf(x / 256, i)
      {
        assert rest[i] == bs[i + 1] == ByteOf(x, i + 1);
      }
      ValueOfBytes(rest, x / 256);
      LowDigit(x, Pow256(|rest|));
    }
  }

  lemma LowDigit(x: nat, p: nat)
    requires p >= 1
    ensures x % 256 + 256 * (x / 256 % p) == x % (256 * p)
  {
    var y := x / 256;
    var q, r := y / p, y % p;
    assert y == q * p + r by { DivParts(y, p); }
    Regroup(q, p);
    assert x == q * (256 * p) + (256 * r + x % 256);
    DivUnique(x, 256 * p, q, 256 * r + x % 256);
    DivParts(x, 256 * p);
  }

  /** Bytes are known by their value. */
  lemma {:induction false} ValueTells(a: Block, b: Block)
    requires |a| == |b| && Value(a) == Value(b)
    ensures a == b
    decreases |a|
  {
    if a != [] {
      assert a[0] == b[0] by { LowByteIs(a[0], Value(a[1..])); LowByteIs(b[0], Value(b[1..])); }
      ValueTells(a[1..], b[1..]);
      assert a == [a[0]] + a[1..] && b == [b[0]] + b[1..];
    }
  }

  lemma LowByteIs(x: byte, y: nat)
    ensures (x as nat + 256 * y) % 256 == x as nat
  {
  }

  /**
   p is m, a one bit, and as few zeros as bring it to a whole number of blocks with eight bytes that hold the length
   of m in bits, low-order byte first, modulo 2^64.
   */
  ghost predicate IsPadded(m: Block, p: Block) {
    && |p| % 64 == 0 && |m| + 9 <= |p| < |m| + 9 + 64
    && p[..|m|] == m && p[|m|] == 0x80
    && (forall i :: |m| < i < |p| - 8 ==> p[i] == 0)
    && Value(p[|p| - 8..]) == 8 * |m| % 0x1_0000_0000_0000_0000
  }

  lemma PowersOf256()
    ensures Pow256(4) == WORD && Pow256(8) == 0x1_0000_0000_0000_0000
  {
    assert Pow256(4) == 256 * Pow256(3) == 256 * (256 * Pow256(2)) == 256 * (256 * (256 * Pow256(1))) == WORD;
    assert Pow256(8) == 256 * Pow256(7) == 256 * (256 * Pow256(6)) == 256 * (256 * (256 * Pow256(5)));
  }

  lemma LengthIs(bits: nat)
    ensures Value(LengthBytes(bits)) == bits % 0x1_0000_0000_0000_0000
  {
    PowersOf256();
    ValueOfBytes(LengthBytes(bits), bits);
  }

  lemma PaddedIsPadded(m: Block)
    ensures IsPadded(m, Padded(m))
  {
    hide LengthBytes, Value;
    var p, n := Padded(m), |m| + 1 + PadZeros(|m|);
    LengthIs(8 * |m|);
    assert p[n..] == LengthBytes(8 * |m|) && |p| == n + 8;
  }

  /** The padded message is this and nothing else. */
  lemma PaddedIff(m: Block, p: Block)
    ensures p == Padded(m) <==> IsPadded(m, p)
  {
    hide Padded, Value;
    var q := Padded(m);
    PaddedIsPadded(m);
    if IsPadded(m, p) {
      assert |p| == |q|;
      ValueTells(p[|p| - 8..], q[|p| - 8..]);
      forall i | 0 <= i < |p|
        ensures p[i] == q[i]
      {
        if i < |m| {
          assert p[i] == p[..|m|][i] && q[i] == q[..|m|][i];
        } else if i >= |p| - 8 {
          assert p[i] == p[|p| - 8..][i - (|p| - 8)] && q[i] == q[|p| - 8..][i - (|p| - 8)];
        }
      }
    }
  }

  /** Each register in four bytes, low-order byte first. */
  ghost predicate HoldsWords(d: Block, w: Words) {
    |d| == 16 && Value(d[..4]) == w.a && Value(d[4..8]) == w.b && Value(d[8..12]) == w.c && Value(d[12..]) == w.d
  }

  lemma FourBytes(d: Block, x: Word)
    requires |d| == 4 && forall i :: 0 <= i < 4 ==> d[i] == ByteOf(x, i)
    ensures Value(d) == x
  {
    PowersOf256();
    ValueOfBytes(d, x);
  }

  /** The digest of registers is this and nothing else. */
  lemma DigestIff(d: Block, w: Words)
    ensures d == DigestBytes(w) <==> HoldsWords(d, w)
  {
    hide Value, ByteOf;
    var e := DigestBytes(w);
    FourBytes(e[..4], w.a);
    FourBytes(e[4..8], w.b);
    FourBytes(e[8..12], w.c);
    FourBytes(e[12..], w.d);
    if HoldsWords(d, w) {
      ValueTells(d[..4], e[..4]);
      ValueTells(d[4..8], e[4..8]);
      ValueTells(d[8..12], e[8..12]);
      ValueTells(d[12..], e[12..]);
      assert d == d[..4] + d[4..8] + d[8..12] + d[12..];
      assert e == e[..4] + e[4..8] + e[8..12] + e[12..];
    }
  }

  /** Section 3.3 of RFC 1321: the registers start with these bytes, low-order first. */
  lemma InitialBytes()
    ensures HoldsWords([0x01, 0x23, 0x45, 0x67, 0x89, 0xab, 0xcd, 0xef, 0xfe, 0xdc, 0xba, 0x98, 0x76, 0x54, 0x32, 0x10],
                       INITIAL)
  {
    FourValue(0x01, 0x23, 0x45, 0x67);
    FourValue(0x89, 0xab, 0xcd, 0xef);
    FourValue(0xfe, 0xdc, 0xba, 0x98);
    FourValue(0x76, 0x54, 0x32, 0x10);
    var d: Block := [0x01, 0x23, 0x45, 0x67, 0x89, 0xab, 0xcd, 0xef, 0xfe, 0xdc, 0xba, 0x98, 0x76, 0x54, 0x32, 0x10];
    assert d[..4] == [0x01, 0x23, 0x45, 0x67] && d[4..8] == [0x89, 0xab, 0xcd, 0xef];
    assert d[8..12] == [0xfe, 0xdc, 0xba, 0x98] && d[12..] == [0x76, 0x54, 0x32, 0x10];
  }

  lemma FourValue(a: byte, b: byte, c: byte, d: byte)
    ensures Value([a, b, c, d]) == a as nat + 0x100 * b as nat + 0x1_0000 * c as nat + 0x100_0000 * d as nat
  {
    assert [d][1..] == [] && [c, d][1..] == [d] && [b, c, d][1..] == [c, d] && [a, b, c, d][1..] == [b, c, d];
    assert Value([d]) == d as nat;
    assert Value([c, d]) == c as nat + 256 * d as nat;
    assert Value([b, c, d]) == b as nat + 256 * Value([c, d]);
  }

  /**
   w is what the registers hold after the blocks of p, in order: states[i] is what they hold after i blocks, and each
   block takes one state to the next.
   */
  ghost predicate Chained(process: (Words, Block) -> Words, p: Block, states: seq<Words>) {
    && 64 * (|states| - 1) == |p|
    && states[0] == INITIAL
    && forall i :: 0 <= i < |states| - 1 ==> states[i + 1] == process(states[i], p[64 * i..64 * (i + 1)])
  }

  lemma {:induction false} ChainedIs(process: (Words, Block) -> Words, p: Block, states: seq<Words>, k: nat)
    requires Chained(process, p, states) && k < |states|
    ensures states[k] == Fold(process, p[..64 * k])
  {
    if k > 0 {
      ChainedIs(process, p, states, k - 1);
      var before, block := p[..64 * (k - 1)], p[64 * (k - 1)..64 * k];
      FoldStep(process, before, block, p[..64 * k]);
      assert states[k - 1 + 1] == process(states[k - 1], block);
    }
  }

  /**
   What the digest of m is: pad m, let the blocks take the registers on from their first value, and write them out
   low-order byte first.
   */
  lemma DigestIs(process: (Words, Block) -> Words, m: Block, p: Block, states: seq<Words>)
    requires IsPadded(m, p) && Chained(process, p, states)
    ensures HoldsWords(Digest(process, m), states[|states| - 1])
  {
    hide IsPadded, Padded, HoldsWords, DigestBytes, Fold;
    PaddedIff(m, p);
    ChainedIs(process, p, states, |states| - 1);
    assert p[..64 * (|states| - 1)] == p;
    DigestIff(Digest(process, m), Fold(process, p));
  }

  lemma DigestIsAlways(process: (Words, Block) -> Words, m: Block)
    ensures forall p, states :: IsPadded(m, p) && Chained(process, p, states) ==>
              HoldsWords(Digest(process, m), states[|states| - 1])
  {
    forall p, states | IsPadded(m, p) && Chained(process, p, states)
      ensures HoldsWords(Digest(process, m), states[|states| - 1])
    {
      DigestIs(process, m, p, states);
    }
  }

  class Md5State {
    const process: (Words, Block) -> Words
    var count0: Word
    var count1: Word
    var abcd: Words
    const buf: array<byte>

    /** Everything appended so far. */
    ghost var message: Block

    ghost predicate Counted()
      reads this
    {
      count0 == 8 * |message| % WORD && count1 == 8 * |message| / WORD % WORD
    }

    /** The whole blocks of m are in the registers, the rest in the buffer. */
    ghost predicate Absorbed(m: Block)
      reads this, buf
    {
      var whole := |m| - |m| % 64;
      && buf.Length == 64
      && abcd == Fold(process, m[..whole])
      && buf[..|m| % 64] == m[whole..]
    }

    ghost predicate Valid()
      reads this, buf
    {
      Counted() && Absorbed(message)
    }

    /** md5_init. */
    constructor (process: (Words, Block) -> Words)
      ensures Valid() && message == [] && this.process == process && fresh(buf)
    {
      this.process := process;
      count0, count1, abcd := 0, 0, INITIAL;
      buf := new byte[64](_ => 0);
      message := [];
    }

    method Copy(at: nat, data: Block)
      requires at + |data| <= buf.Length
      modifies buf
      ensures buf[..] == old(buf[..at]) + data + old(buf[at + |data|..])
    {
      for i := 0 to |data|
        invariant buf[..at] == old(buf[..at]) && buf[at + i..] == old(buf[at + i..])
        invariant buf[at..at + i] == data[..i]
      {
        buf[at + i] := data[i];
        assert buf[at..at + i + 1] == buf[at..at + i] + [data[i]];
      }
      assert buf[..] == buf[..at] + buf[at..at + |data|] + buf[at + |data|..];
      assert data[..|data|] == data;
    }

    /** md5_append. */
    method Append(data: Block)
      requires Valid()
      modifies this`count0, this`count1, this`abcd, this`message, buf
      ensures Valid() && message == old(message) + data
    {
      var nbytes := |data|;
      var offset := count0 / 8 % 64;
      OffsetIs(|message|);
      if nbytes <= 0 {
        assert message + data == message;
        return;
      }
      CountBits(nbytes);
      ghost var m := message;
      message := message + data;
      Absorb(data, offset, m);
    }

    /** The message length of md5_append, in bits, in two words. */
    method CountBits(nbytes: nat)
      requires count0 == 8 * |message| % WORD && count1 == 8 * |message| / WORD % WORD
      modifies this`count0, this`count1
      ensures count0 == 8 * (|message| + nbytes) % WORD && count1 == 8 * (|message| + nbytes) / WORD % WORD
    {
      var nbits := nbytes * 8 % WORD;
      CountAdds(|message|, nbytes);
      count1 := (count1 + nbytes / 0x2000_0000) % WORD;
      count0 := (count0 + nbits) % WORD;
      if count0 < nbits {
        count1 := (count1 + 1) % WORD;
      }
    }

    /** The part of md5_append that moves bytes. */
    method Absorb(data: Block, offset: nat, ghost m: Block)
      requires Absorbed(m) && offset == |m| % 64 && data != []
      modifies this`abcd, buf
      ensures Absorbed(m + data)
    {
      var p, left := 0, |data|;
      if offset != 0 {
        var copy := if offset + |data| > 64 then 64 - offset else |data|;
        Copy(offset, data[..copy]);
        p := copy;
        left := |data| - copy;
        if offset + copy < 64 {
          SamePartial(m, data);
          return;
        }
        BlockFilled(process, m, data[..copy]);
        assert buf[..] == m[|m| - |m| % 64..] + data[..copy];
        abcd := process(abcd, buf[..]);
        assert m + data[..copy] == (m + data)[..|m| + p];
      }
      assert (|m| + p) % 64 == 0;
      assert (m + data)[..|m|] == m[..|m|];
      AbsorbBlocks(data, p, m);
    }

    method AbsorbBlocks(data: Block, p0: nat, ghost m: Block)
      requires buf.Length == 64 && p0 <= |data| && (|m| + p0) % 64 == 0 && abcd == Fold(process, (m + data)[..|m| + p0])
      modifies this`abcd, buf
      ensures Absorbed(m + data)
    {
      hide Fold;
      var p, left := p0, |data| - p0;
      ghost var all := m + data;
      while left >= 64
        invariant p0 <= p <= |data| && left == |data| - p && (|m| + p) % 64 == 0
        invariant abcd == Fold(process, all[..|m| + p])
      {
        FoldStep(process, all[..|m| + p], data[p..p + 64], all[..|m| + p + 64]);
        abcd := process(abcd, data[p..p + 64]);
        p, left := p + 64, left - 64;
      }
      if left != 0 {
        Copy(0, data[p..]);
      }
      Tail(m, data, p);
    }

    /** md5_finish: pads the message and returns its digest. */
    method Finish() returns (digest: Block)
      requires Valid()
      modifies this`count0, this`count1, this`abcd, this`message, buf
      ensures digest == Digest(process, old(message))
      ensures forall p, states :: IsPadded(old(message), p) && Chained(process, p, states) ==>
                HoldsWords(digest, states[|states| - 1])
    {
      hide Fold;
      ghost var m := message;
      var data := LengthField();
      PadIs(|m|);
      var pad := [0x80] + Zeros((55 - count0 / 8) % 64);
      Append(pad);
      Append(data);
      AllPadded(m, message, pad, data);
      digest := DigestField();
      DigestIsAlways(process, m);
    }

    method LengthField() returns (data: Block)
      requires Counted()
      ensures data == LengthBytes(8 * |message|)
    {
      data := [];
      for i := 0 to 8
        invariant data == LengthBytes(8 * |message|)[..i]
      {
        LengthFromWords(8 * |message|, i);
        data := data + [ByteOf(if i / 4 == 0 then count0 else count1, i % 4)];
      }
      assert LengthBytes(8 * |message|)[..8] == LengthBytes(8 * |message|);
    }

    method DigestField() returns (digest: Block)
      ensures digest == DigestBytes(abcd)
    {
      digest := [];
      for i := 0 to 16
        invariant digest == DigestBytes(abcd)[..i]
      {
        digest := digest + [ByteOf(Register(abcd, i / 4), i % 4)];
      }
      assert DigestBytes(abcd)[..16] == DigestBytes(abcd);
    }
  }

  lemma Tail(m: Block, data: Block, p: nat)
    requires p <= |data| && (|m| + p) % 64 == 0 && |data| - p < 64
    ensures |m + data| % 64 == |data| - p && (m + data)[|m| + p..] == data[p..]
  {
  }

  lemma SamePartial(m: Block, data: Block)
    requires |m| % 64 + |data| < 64
    ensures |m + data| % 64 == |m| % 64 + |data|
    ensures var whole := |m| - |m| % 64;
            && |m + data| - |m + data| % 64 == whole
            && (m + data)[..whole] == m[..whole] && (m + data)[whole..] == m[whole..] + data
  {
  }

  lemma BlockFilled(process: (Words, Block) -> Words, m: Block, part: Block)
    requires |m| % 64 + |part| == 64
    ensures var whole := |m| - |m| % 64;
            && |m + part| % 64 == 0
            && Fold(process, m + part) == process(Fold(process, m[..whole]), m[whole..] + part)
  {
    hide Fold;
    BlockFilledAt(process, m, part, |m| - |m| % 64);
  }

  lemma BlockFilledAt(process: (Words, Block) -> Words, m: Block, part: Block, whole: nat)
    requires whole <= |m| && whole % 64 == 0 && |m| - whole + |part| == 64
    ensures Fold(process, m + part) == process(Fold(process, m[..whole]), m[whole..] + part)
  {
    hide Fold;
    assert m == m[..whole] + m[whole..];
    ConcatAssoc(m[..whole], m[whole..], part);
    FoldStep(process, m[..whole], m[whole..] + part, m + part);
  }

  lemma PadIs(n: nat)
    ensures (55 - 8 * n % WORD / 8) % 64 == PadZeros(n)
  {
    var q, r := 8 * n / WORD, 8 * n % WORD;
    assert n == q * 0x2000_0000 + r / 8;
    ModTurns(55 - n, q * 0x80_0000);
    assert 55 - r / 8 == 55 - n + 64 * (q * 0x80_0000);
  }

  lemma ModTurns(x: int, t: int)
    ensures (x + 64 * t) % 64 == x % 64
  {
  }

  lemma AllPadded(m: Block, all: Block, pad: Block, data: Block)
    requires pad == [0x80] + Zeros(PadZeros(|m|)) && data == LengthBytes(8 * |m|)
    requires all == m + pad + data
    ensures all == Padded(m) && |all| % 64 == 0 && all[..|all|] == all
  {
    assert m + ([0x80] + Zeros(PadZeros(|m|))) == m + [0x80] + Zeros(PadZeros(|m|));
  }

  /** However a message is cut into pieces, and whatever their sizes, the digest is that of the whole. */
  method DigestOfPieces(process: (Words, Block) -> Words, pieces: seq<Block>) returns (digest: Block)
    ensures digest == Digest(process, Flatten(pieces))
    ensures forall p, states :: IsPadded(Flatten(pieces), p) && Chained(process, p, states) ==>
              HoldsWords(digest, states[|states| - 1])
  {
    var md := new Md5State(process);
    for i := 0 to |pieces|
      invariant md.Valid() && md.process == process && fresh(md) && fresh(md.buf)
      invariant md.message == Flatten(pieces[..i])
    {
      FlattenSnoc(pieces, i);
      md.Append(pieces[i]);
    }
    assert pieces[..|pieces|] == pieces;
    digest := md.Finish();
  }
}
