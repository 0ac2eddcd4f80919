/** The receive ring of stream mode, seen from the read position (src/udt/src/buffer.cpp). */
module StreamRing {
  import opened Common

  /** slots[0] is the slot at the read position, slots[dataSize] the one at the ACK position. */
  datatype Ring = Ring(slots: seq<Option<Block>>, dataSize: nat, maxPos: nat, notch: nat) {
    ghost predicate Valid() {
      && dataSize < |slots|
      && (forall i :: 0 <= i < dataSize ==> slots[i].Some?)
      && (dataSize == 0 ==> notch == 0)
      && (dataSize > 0 ==> notch <= |slots[0].value|)
    }

    function Avail(): int {
      |slots| - dataSize - 1
    }
  }

  /** The payloads of a run of filled slots. */
  ghost function Units(slots: seq<Option<Block>>): (bs: seq<Block>)
    requires forall i :: 0 <= i < |slots| ==> slots[i].Some?
    ensures |bs| == |slots|
    ensures forall i :: 0 <= i < |slots| ==> bs[i] == slots[i].value
  {
    seq(|slots|, i requires 0 <= i < |slots| => slots[i].value)
  }

  function EmptyRing(size: nat): Ring {
    Ring(seq(size, _ => None), 0, 0, 0)
  }

  /** Stores a payload `offset` slots past the ACK position; refuses an occupied slot. */
  function AddData(r: Ring, offset: nat, b: Block): (Ring, bool)
    requires r.dataSize + offset < |r.slots|
  {
    var r1 := r.(maxPos := Max(r.maxPos, offset));
    if r.slots[r.dataSize + offset].Some? then
      (r1, false)
    else
      (r1.(slots := r.slots[r.dataSize + offset := Some(b)]), true)
  }

  /** Moves the ACK position `len` slots forward. */
  function AckData(r: Ring, len: nat): Ring
    requires r.dataSize + len < |r.slots|
  {
    r.(dataSize := r.dataSize + len, maxPos := Max(r.maxPos - len, 0))
  }

  /** The ring after its first slot has been read to the end. */
  function DropFirst(r: Ring): (r': Ring)
    requires r.Valid() && r.dataSize > 0
    ensures r'.Valid()
  {
    Ring(r.slots[1..] + [None], r.dataSize - 1, r.maxPos, 0)
  }

  /** Copies out at most `len` acknowledged bytes, emptying the slots that are read to their end. */
  function ReadBuffer(r: Ring, len: nat): (res: (Ring, seq<byte>))
    requires r.Valid()
    ensures res.0.Valid() && |res.0.slots| == |r.slots| && res.0.dataSize <= r.dataSize
    decreases r.dataSize
  {
    if r.dataSize == 0 || len == 0 then
      (r, [])
    else
      var unit := r.slots[0].value;
      var left := |unit| - r.notch;
      if left <= len then
        var (r2, out) := ReadBuffer(DropFirst(r), len - left);
        (r2, unit[r.notch..] + out)
      else
        (r.(notch := r.notch + len), unit[r.notch..r.notch + len])
  }

  /** One unit of a read: it is read to its end and dropped, or the read ends inside it. */
  lemma ReadStep(r: Ring, len: nat)
    requires r.Valid() && r.dataSize > 0 && len > 0
    ensures var unit, left := r.slots[0].value, |r.slots[0].value| - r.notch;
            if left <= len then
              && ReadBuffer(r, len).0 == ReadBuffer(DropFirst(r), len - left).0
              && ReadBuffer(r, len).1 == unit[r.notch..] + ReadBuffer(DropFirst(r), len - left).1
            else
              ReadBuffer(r, len) == (r.(notch := r.notch + len), unit[r.notch..r.notch + len])
  {
  }

  lemma ReadNothing(r: Ring, len: nat)
    requires r.Valid() && (r.dataSize == 0 || len == 0)
    ensures ReadBuffer(r, len) == (r, [])
  {
  }

  /** The acknowledged bytes that the application has not read yet. */
  ghost function Unread(r: Ring): seq<byte>
    requires r.Valid()
  {
    if r.dataSize == 0 then [] else r.slots[0].value[r.notch..] + Flatten(Units(r.slots[1..r.dataSize]))
  }

  lemma UnreadDropFirst(r: Ring)
    requires r.Valid() && r.dataSize > 0
    ensures Unread(r) == r.slots[0].value[r.notch..] + Unread(DropFirst(r))
  {
    var r1 := DropFirst(r);
    var us := Units(r.slots[1..r.dataSize]);
    if r1.dataSize > 0 {
      FlattenHead(us);
      assert Units(r1.slots[1..r1.dataSize]) == us[1..];
      assert r1.slots[0].value[0..] == us[0];
    }
  }

  lemma ReadWithinUnit(r: Ring, len: nat)
    requires r.Valid() && r.dataSize > 0 && r.notch + len <= |r.slots[0].value|
    ensures r.slots[0].value[r.notch..r.notch + len] + Unread(r.(notch := r.notch + len)) == Unread(r)
  {
    var unit := r.slots[0].value;
    assert unit[r.notch..] == unit[r.notch..r.notch + len] + unit[r.notch + len..];
    ConcatAssoc(unit[r.notch..r.notch + len], unit[r.notch + len..], Flatten(Units(r.slots[1..r.dataSize])));
  }

  /** Reading takes exactly the first min(len, available) unread bytes and leaves the others. */
  lemma {:induction false} ReadTakesPrefix(r: Ring, len: nat)
    requires r.Valid()
    ensures ReadBuffer(r, len).1 + Unread(ReadBuffer(r, len).0) == Unread(r)
    ensures |ReadBuffer(r, len).1| == Min(len, |Unread(r)|)
    decreases r.dataSize
  {
    if r.dataSize > 0 && len > 0 {
      var unit := r.slots[0].value;
      var left := |unit| - r.notch;
      if left <= len {
        var r1 := DropFirst(r);
        UnreadDropFirst(r);
        ReadTakesPrefix(r1, len - left);
        ConcatAssoc(unit[r.notch..], ReadBuffer(r1, len - left).1, Unread(ReadBuffer(r1, len - left).0));
      } else {
        ReadWithinUnit(r, len);
      }
    }
  }
}
