/**
 The loss report carried by a NAK (section 6.4 of draft-gg-udt-03): 32-bit words, where a word with its top
 bit set opens a range that the next word closes (src/udt/src/list.cpp, src/udt/src/core.cpp).
 */
module LossReport {
  import opened Common
  import opened SeqNo

  /** The words of one interval. */
  function EncodeRange(r: Range): seq<int> {
    if r.lo == r.hi then [Wrap(r.lo)] else [Wrap(r.lo) + CIRCLE, Wrap(r.hi)]
  }

  function Encode(rs: seq<Range>): seq<int> {
    if rs == [] then [] else Encode(rs[..|rs| - 1]) + EncodeRange(rs[|rs| - 1])
  }

  /** An interval as it is read back: numbers on the circle. */
  function WrapRange(r: Range): Range {
    Range(Wrap(r.lo), Wrap(r.hi))
  }

  /** What the receiving side reads from the words, pair by pair; a range without its end is an error. */
  function Decode(words: seq<int>): Option<seq<Range>>
    decreases |words|
  {
    if words == [] then Some([])
    else if words[0] >= CIRCLE then
      if |words| == 1 then None
      else
        var rest := Decode(words[2..]);
        if rest.None? then None else Some([Range(words[0] - CIRCLE, words[1])] + rest.value)
    else
      var rest := Decode(words[1..]);
      if rest.None? then None else Some([Range(words[0], words[0])] + rest.value)
  }

  function WrapRanges(rs: seq<Range>): (ws: seq<Range>)
    ensures |ws| == |rs| && forall i :: 0 <= i < |rs| ==> ws[i] == WrapRange(rs[i])
  {
    seq(|rs|, i requires 0 <= i < |rs| => WrapRange(rs[i]))
  }

  lemma {:induction false} EncodeConcat(a: seq<Range>, b: seq<Range>)
    ensures Encode(a + b) == Encode(a) + Encode(b)
    decreases |b|
  {
    if b == [] {
      assert a + b == a;
    } else {
      assert (a + b)[..|a + b| - 1] == a + b[..|b| - 1];
      EncodeConcat(a, b[..|b| - 1]);
      ConcatAssoc(Encode(a), Encode(b[..|b| - 1]), EncodeRange(b[|b| - 1]));
    }
  }

  lemma EncodeHead(rs: seq<Range>)
    requires rs != []
    ensures Encode(rs) == EncodeRange(rs[0]) + Encode(rs[1..])
  {
    var first := [rs[0]];
    assert first[..0] == [];
    assert first + rs[1..] == rs;
    EncodeConcat(first, rs[1..]);
  }

  /** Reading back a report yields the reported intervals, whatever their numbers. */
  lemma {:induction false} DecodeEncode(rs: seq<Range>)
    ensures Decode(Encode(rs)) == Some(WrapRanges(rs))
    decreases |rs|
  {
    if rs != [] {
      EncodeHead(rs);
      DecodeEncode(rs[1..]);
      DecodeHead(rs[0], Encode(rs[1..]));
      assert WrapRanges(rs) == [WrapRange(rs[0])] + WrapRanges(rs[1..]);
    }
  }

  lemma DecodeHead(r: Range, words: seq<int>)
    requires Decode(words).Some?
    ensures Decode(EncodeRange(r) + words) == Some([WrapRange(r)] + Decode(words).value)
  {
    var all := EncodeRange(r) + words;
    if r.lo == r.hi {
      assert all[1..] == words;
    } else {
      assert all[2..] == words;
    }
  }

  /** The union of a report's intervals. */
  ghost function Covered(rs: seq<Range>): set<int> {
    if rs == [] then {} else Covered(rs[..|rs| - 1]) + Span(rs[|rs| - 1].lo, rs[|rs| - 1].hi)
  }
}
