/**
 CRcvBuffer (src/udt/src/buffer.cpp): a ring of pointers to packet units, with a read position, an ACK
 position and, in stream mode, a notch inside the first unread unit.
 */
module ReceiverBuffer {
  import opened Common
  import opened Messages
  import opened SeqNo
  import opened StreamRing
  import opened MessageRing

  /** CUnit: flag 0 is free, 1 holds unread data, 2 was read out of order. */
  class Unit {
    var flag: int
    const packet: DataPacket

    constructor (packet: DataPacket)
      ensures flag == 0 && this.packet == packet
    {
      flag := 0;
      this.packet := packet;
    }
  }

  /** Steps from one ring position forward to another. */
  function Distance(start: int, end: int, size: int): (n: int)
    requires 0 <= start < size && 0 <= end < size
    ensures 0 <= n < size && end == Move(start, n, size)
  {
    if end >= start then end - start else size + end - start
  }

  /** The slots as they follow each other from position start on. */
  ghost predicate Rotation(units: seq<Unit?>, start: int, slots: seq<Unit?>) {
    && |slots| == |units|
    && 0 <= start < |units|
    && forall i :: 0 <= i < |slots| ==> slots[i] == units[Move(start, i, |units|)]
  }

  /** No unit sits in two slots. */
  ghost predicate OnePlace(slots: seq<Unit?>) {
    forall i, j :: 0 <= i < j < |slots| && slots[i] != null ==> slots[i] != slots[j]
  }

  /** Units in the ring are in use. */
  ghost predicate NotFree(slots: seq<Unit?>)
    reads set u | u in slots && u != null
  {
    forall i :: 0 <= i < |slots| && slots[i] != null ==> slots[i].flag != 0
  }

  /** Some units left the ring, and those are free again. */
  ghost predicate Shrunk(before: seq<Unit?>, now: seq<Unit?>)
    reads set u | u in before && u != null
  {
    && (forall u :: u in now && u != null ==> u in before)
    && forall u :: u in before && u != null && u !in now ==> u.flag == 0
  }

  /** The payloads in the slots. */
  ghost function Payloads(slots: seq<Unit?>): (ps: seq<Option<Block>>)
    ensures |ps| == |slots|
    ensures forall i :: 0 <= i < |slots| ==> ps[i] == if slots[i] == null then None else Some(slots[i].packet.payload)
  {
    seq(|slots|, i requires 0 <= i < |slots| => if slots[i] == null then None else Some(slots[i].packet.payload))
  }

  ghost function CellOf(u: Unit?): Cell
    reads if u == null then {} else {u}
  {
    if u == null then Empty else if u.flag == 1 then Unread(u.packet) else Consumed(u.packet)
  }

  /** The slots as message mode sees them. */
  ghost function CellsOf(slots: seq<Unit?>): (cs: seq<Cell>)
    reads set u | u in slots && u != null
    ensures |cs| == |slots| && forall i :: 0 <= i < |slots| ==> cs[i] == CellOf(slots[i])
  {
    seq(|slots|, i requires 0 <= i < |slots| reads (set u | u in slots && u != null) => CellOf(slots[i]))
  }

  class RcvBuffer {
    const size: nat
    const units: array<Unit?>
    var startPos: int
    var lastAckPos: int
    var maxPos: int
    var notch: int

    /** The ring read from startPos on. */
    ghost var slots: seq<Unit?>

    /** The ring with its read position at p. */
    ghost predicate ShapeFrom(p: int)
      reads this, units
    {
      && size > 1 && units.Length == size && |slots| == size
      && 0 <= p < size && 0 <= lastAckPos < size && maxPos >= 0 && notch >= 0
      && Rotation(units[..], p, slots)
      && OnePlace(slots)
    }

    ghost predicate Shape()
      reads this, units
    {
      ShapeFrom(startPos)
    }

    ghost predicate Valid()
      reads this, units, set u | u in slots && u != null
    {
      Shape() && NotFree(slots)
    }

    /** getRcvDataSize: the acknowledged slots that have not been read. */
    function GetRcvDataSize(): (n: int)
      requires Shape()
      reads this, units
      ensures 0 <= n < size && lastAckPos == Move(startPos, n, size)
    {
      Distance(startPos, lastAckPos, size)
    }

    /** getAvailBufSize: one slot stays empty to tell a full ring from an empty one. */
    function GetAvailBufSize(): int
      requires Shape()
      reads this, units
    {
      size - GetRcvDataSize() - 1
    }

    /** The ring as stream mode sees it. */
    ghost function View(): Ring
      requires Shape()
      reads this, units
    {
      Ring(Payloads(slots), GetRcvDataSize(), maxPos, notch)
    }

    constructor (bufsize: nat)
      requires bufsize > 1
      ensures Valid() && fresh(units) && size == bufsize && View() == EmptyRing(bufsize)
          && slots == seq(bufsize, _ => null)
    {
      size := bufsize;
      units := new Unit?[bufsize](_ => null);
      startPos, lastAckPos, maxPos, notch := 0, 0, 0, 0;
      slots := seq(bufsize, _ => null);
    }

    /** addData: a free unit goes into the slot `offset` past the ACK position; an occupied slot refuses it. */
    method AddData(unit: Unit, offset: nat) returns (ok: bool)
      requires Valid() && unit.flag == 0 && GetRcvDataSize() + offset < size
      modifies this`maxPos, this`slots, units, unit`flag
      ensures Valid() && startPos == old(startPos) && lastAckPos == old(lastAckPos)
      ensures ok == (old(slots)[GetRcvDataSize() + offset] == null)
      ensures slots == if ok then old(slots)[GetRcvDataSize() + offset := unit] else old(slots)
      ensures unit.flag == (if ok then 1 else 0) && maxPos == Max(old(maxPos), offset)
      ensures (View(), ok) == StreamRing.AddData(old(View()), offset, unit.packet.payload)
      ensures MsgView() == Add(old(MsgView()), offset, unit.packet)
    {
      hide Rotation, OnePlace, NotFree, Payloads, CellsOf, Move;
      ghost var ds := GetRcvDataSize();
      ghost var k := ds + offset;
      UnitAt(k);
      RingIndex(startPos, ds, offset, size);
      var pos := (lastAckPos + offset) % size;
      if offset > maxPos {
        maxPos := offset;
      }
      if units[pos] != null {
        return false;
      }
      PutUnit(pos, unit, k);
      return true;
    }

    /** A free unit is put into an empty slot. */
    method PutUnit(pos: int, unit: Unit, ghost k: nat)
      requires Valid() && unit.flag == 0 && k < size && pos == Move(startPos, k, size) && slots[k] == null
      modifies this`slots, units, unit`flag
      ensures Valid() && slots == old(slots)[k := unit] && unit.flag == 1
      ensures Payloads(slots) == old(Payloads(slots))[k := Some(unit.packet.payload)]
      ensures CellsOf(slots) == old(CellsOf(slots))[k := Unread(unit.packet)]
    {
      hide Rotation, OnePlace, Payloads, Move;
      UnitAt(k);
      FreeUnit(slots, unit);
      StoreRotation(units[..], startPos, slots, k, unit);
      StoreOnce(slots, k, unit);
      units[pos] := unit;
      unit.flag := 1;
      slots := slots[k := unit];
    }

    /** ackData: the ACK position moves on. */
    method AckData(len: nat)
      requires Valid() && GetRcvDataSize() + len < size
      modifies this`lastAckPos, this`maxPos
      ensures Valid() && View() == StreamRing.AckData(old(View()), len) && MsgView() == Ack(old(MsgView()), len)
      ensures maxPos == Max(old(maxPos) - len, 0) && GetRcvDataSize() == old(GetRcvDataSize()) + len
    {
      RingIndex(startPos, GetRcvDataSize(), len, size);
      lastAckPos := (lastAckPos + len) % size;
      maxPos := maxPos - len;
      if maxPos < 0 {
        maxPos := 0;
      }
    }

    /** readBuffer: copies out up to `len` acknowledged bytes and frees the units read to their end. */
    method ReadBuffer(len: nat) returns (data: seq<byte>)
      requires Valid() && View().Valid()
      modifies this`startPos, this`notch, this`slots, units, (set u | u in slots && u != null)`flag
      ensures Valid() && lastAckPos == old(lastAckPos)
      ensures (View(), data) == StreamRing.ReadBuffer(old(View()), len)
      ensures Shrunk(old(slots), slots)
    {
      var p := startPos;
      var lastack := lastAckPos;
      var rs := len;
      data := [];
      hide Rotation, OnePlace, NotFree, Payloads, Move, StreamRing.ReadBuffer;
      ghost var v := View();
      ghost var v0 := v;
      while p != lastack && rs > 0
        invariant lastAckPos == lastack && startPos == old(startPos) && rs >= 0
        invariant ShapeFrom(p) && NotFree(slots)
        invariant v == Ring(Payloads(slots), Distance(p, lastack, size), maxPos, notch) && v.Valid()
        invariant Shrunk(old(slots), slots)
        invariant StreamRing.ReadBuffer(v0, len).0 == StreamRing.ReadBuffer(v, rs).0
        invariant StreamRing.ReadBuffer(v0, len).1 == data + StreamRing.ReadBuffer(v, rs).1
        decreases v.dataSize, rs
      {
        p, rs, data, v := ReadUnit(p, rs, data, v);
      }
      ReadNothing(v, rs);
      assert data + [] == data;
      startPos := p;
    }

    /** One round of readBuffer's loop. */
    method ReadUnit(p0: int, rs0: nat, data0: seq<byte>, ghost v0: Ring)
        returns (p: int, rs: nat, data: seq<byte>, ghost v: Ring)
      requires ShapeFrom(p0) && NotFree(slots) && p0 != lastAckPos && rs0 > 0
      requires v0 == Ring(Payloads(slots), Distance(p0, lastAckPos, size), maxPos, notch) && v0.Valid()
      modifies this`notch, this`slots, units, (set u | u in slots && u != null)`flag
      ensures ShapeFrom(p) && NotFree(slots)
      ensures v == Ring(Payloads(slots), Distance(p, lastAckPos, size), maxPos, notch) && v.Valid()
      ensures StreamRing.ReadBuffer(v0, rs0).0 == StreamRing.ReadBuffer(v, rs).0
      ensures data0 + StreamRing.ReadBuffer(v0, rs0).1 == data + StreamRing.ReadBuffer(v, rs).1
      ensures Shrunk(old(slots), slots)
      ensures v.dataSize < v0.dataSize || (v.dataSize == v0.dataSize && rs < rs0)
    {
      hide Rotation, OnePlace, NotFree, Payloads, Move, CellsOf, StreamRing.ReadBuffer;
      p, rs, v := p0, rs0, v0;
      FrontSlot(units[..], p, slots);
      ReadStep(v0, rs0);
      var payload := units[p].packet.payload;
      var unitsize := |payload| - notch;
      if unitsize > rs {
        unitsize := rs;
      }
      var part := payload[notch..notch + unitsize];
      ConcatAssoc(data0, part, StreamRing.ReadBuffer(DropFirst(v0), rs0 - unitsize).1);
      data := data0 + part;
      if rs > unitsize || rs == |payload| - notch {
        NextPosition(p, lastAckPos, size);
        FreedFront(units[..], p, slots);
        FreeFront(p);
        p := p + 1;
        if p == size {
          p := 0;
        }
        notch := 0;
        v := DropFirst(v0);
      } else {
        notch := notch + rs;
        v := v0.(notch := notch);
        ReadNothing(v, 0);
        assert part + [] == part && data + [] == data;
      }
      rs := rs - unitsize;
    }

    /** The unit at the read position is given back. */
    method FreeFront(p: int)
      requires ShapeFrom(p) && NotFree(slots) && slots[0] != null
      modifies this`slots, units, (set u | u in slots && u != null)`flag
      ensures slots == old(slots)[1..] + [null]
      ensures ShapeFrom(if p + 1 == size then 0 else p + 1) && NotFree(slots)
      ensures CellsOf(slots) == old(CellsOf(slots))[1..] + [Empty]
      ensures Shrunk(old(slots), slots) && forall u :: u in slots && u != null ==> u.flag == old(u.flag)
    {
      hide Rotation, OnePlace, Move;
      FrontSlot(units[..], p, slots);
      FreedFront(units[..], p, slots);
      var tmp := units[p];
      units[p] := null;
      tmp.flag := 0;
      slots := slots[1..] + [null];
    }

    // ----- message mode -----

    /** The ring as message mode sees it. */
    ghost function MsgView(): MsgRing
      requires Shape()
      reads this, units, set u | u in slots && u != null
    {
      MsgRing(CellsOf(slots), GetRcvDataSize(), maxPos)
    }

    lemma InRing()
      requires Valid()
      ensures 0 <= startPos < size && 1 < size && |slots| == size == |CellsOf(slots)| && maxPos >= 0
    {
    }

    lemma UnitAt(k: nat)
      requires Shape() && k < size
      ensures 0 <= Move(startPos, k, size) < size && units[Move(startPos, k, size)] == slots[k]
      ensures |CellsOf(slots)| == size && CellsOf(slots)[k] == CellOf(slots[k])
      ensures |Payloads(slots)| == size && (Payloads(slots)[k] == None <==> slots[k] == null)
    {
      SlotAt(units[..], startPos, slots, k);
    }

    /** The look-ahead of scanMsg: is the acknowledged part of the message at the read position all there? */
    method LookAhead() returns (good: bool)
      requires Valid()
      ensures good == LooksGood(CellsOf(slots), 0, GetRcvDataSize())
    {
      hide Rotation, OnePlace, Move, CellsOf;
      ghost var cells, ds := CellsOf(slots), GetRcvDataSize();
      good := true;
      var i := startPos;
      ghost var k := 0;
      UnitAt(0);
      MoveZero(startPos, size);
      while i != lastAckPos
        invariant 0 <= k <= ds && i == Move(startPos, k, size) && 0 <= i < size && good && |cells| == size
        invariant LooksGood(cells, 0, ds) == LooksGood(cells, k, ds)
        decreases ds - k
      {
        NotThere(startPos, k, ds, lastAckPos, size);
        UnitAt(k);
        if units[i] == null || units[i].flag != 1 {
          good := false;
          break;
        }
        if units[i].packet.msg.last {
          break;
        }
        NextMove(startPos, k, size);
        i := i + 1;
        if i == size {
          i := 0;
        }
        k := k + 1;
      }
      if i == lastAckPos {
        IsThere(startPos, k, ds, lastAckPos, size);
      }
    }

    /** The slot at the read position is given up, with its unit if it holds one. */
    method DropFront()
      requires Valid() && startPos != lastAckPos
      modifies this`startPos, this`slots, units, (set u | u in slots && u != null)`flag
      ensures Valid() && lastAckPos == old(lastAckPos)
      ensures 0 < old(GetRcvDataSize()) <= size == |old(MsgView()).cells| && MsgView() == Drop(old(MsgView()))
      ensures GetRcvDataSize() == old(GetRcvDataSize()) - 1
      ensures Shrunk(old(slots), slots)
    {
      hide Rotation, OnePlace, NotFree, Move, CellsOf;
      NextPosition(startPos, lastAckPos, size);
      FrontSlot(units[..], startPos, slots);
      DropCells(slots);
      if units[startPos] != null {
        FreeFront(startPos);
      } else {
        EmptyFront(units[..], startPos, slots);
        slots := slots[1..] + [null];
      }
      startPos := startPos + 1;
      if startPos == size {
        startPos := 0;
      }
    }

    /** scanMsg, first part: skip what does not begin a message that may still become whole. */
    method SkipBad()
      requires Valid()
      modifies this`startPos, this`slots, units, (set u | u in slots && u != null)`flag
      ensures Valid() && MsgView() == Skip(old(MsgView()))
      ensures Shrunk(old(slots), slots)
    {
      hide Rotation, OnePlace, NotFree, Move, CellsOf, Skip, Drop, LooksGood, Distance;
      ghost var r0 := MsgView();
      while startPos != lastAckPos
        invariant Valid() && lastAckPos == old(lastAckPos)
        invariant Shrunk(old(slots), slots)
        invariant Skip(MsgView()) == Skip(r0)
        decreases GetRcvDataSize()
      {
        SomeData(startPos, lastAckPos, size);
        SkipCases(MsgView());
        UnitAt(0);
        MoveZero(startPos, size);
        var good := false;
        if units[startPos] != null && units[startPos].flag == 1 && units[startPos].packet.msg.first {
          good := LookAhead();
        }
        if good {
          break;
        }
        DropFront();
      }
      NoData(startPos, size);
      SkipCases(MsgView());
    }

    /** scanMsg, second part: looking for the first message, acknowledged or allowed to be read out of order. */
    method FindMsg() returns (p: int, q: int, passack: bool, found: bool)
      requires Valid() && GetRcvDataSize() + maxPos < size
      ensures var s := Search(MsgView());
              && found == s.found && p == PositionOf(startPos, s.p, size) && q == PositionOf(startPos, s.q, size)
              && (passack <==> s.q >= GetRcvDataSize())
    {
      hide Rotation, OnePlace, NotFree, Move, CellsOf, Find;
      p, q, passack, found := -1, startPos, startPos == lastAckPos, false;
      var n := maxPos + GetRcvDataSize();
      ghost var cells, ds, pk: int := CellsOf(slots), GetRcvDataSize(), -1;
      var i := 0;
      MoveZero(startPos, size);
      AtAck(startPos, 0, ds, lastAckPos, size);
      while i <= n
        invariant 0 <= i <= n + 1 && -1 <= pk < i && !found
        invariant q == Move(startPos, i, size) && 0 <= q < size && (passack <==> i >= ds)
        invariant p == PositionOf(startPos, pk, size) && (p == -1 <==> pk == -1)
        invariant Find(cells, ds, -1, 0, n) == Find(cells, ds, pk, i, n)
        decreases n - i
      {
        UnitAt(i);
        FindCases(cells, ds, pk, i, n);
        if units[q] != null && units[q].flag == 1 {
          var msg := units[q].packet.msg;
          if msg.first {
            p := q;
            pk := i;
          }
          found := msg.last && p != -1;
        } else {
          p := -1;
          pk := -1;
        }
        if found {
          if !passack || !units[q].packet.msg.inOrder {
            break;
          }
          found := false;
        }
        NextMove(startPos, i, size);
        AtAck(startPos, i + 1, ds, lastAckPos, size);
        q := q + 1;
        if q == size {
          q := 0;
        }
        if q == lastAckPos {
          passack := true;
        }
        i := i + 1;
      }
      if !found {
        FindEnds(cells, ds, pk, n);
      }
    }

    /** scanMsg: where the message to read begins and ends, and whether it reaches past the ACK position. */
    method ScanMsg() returns (p: int, q: int, passack: bool, found: bool)
      requires Valid() && GetRcvDataSize() + maxPos < size
      modifies this`startPos, this`slots, units, (set u | u in slots && u != null)`flag
      ensures Valid() && GetRcvDataSize() + maxPos < size && maxPos == old(maxPos)
      ensures MsgView() == MessageRing.ScanMsg(old(MsgView())).0
      ensures var s := MessageRing.ScanMsg(old(MsgView())).1;
              && found == s.found
              && (found ==>
                    && p == PositionOf(startPos, s.p, size) && q == PositionOf(startPos, s.q, size)
                    && (passack <==> s.q >= GetRcvDataSize()))
      ensures Shrunk(old(slots), slots)
    {
      hide Rotation, OnePlace, NotFree, Move, CellsOf, Skip, Search;
      if startPos == lastAckPos && maxPos <= 0 {
        NoData(startPos, size);
        return -1, startPos, true, false;
      }
      ghost var r0 := MsgView();
      SkipBad();
      p, q, passack, found := FindMsg();
      ScanCases(r0);
      FullRing(startPos, Search(MsgView()), size);
      if !found && p != -1 && (q + 1) % size == p {
        found := true;
      }
    }

    /** The unit at cell k has been copied: it is given back, or only marked. */
    method TakeUnit(p: int, passack: bool, ghost k: nat)
      requires Valid() && k < size && p == Move(startPos, k, size) && CellsOf(slots)[k].Unread?
      modifies this`slots, units, (set u | u in slots && u != null)`flag
      ensures Valid()
      ensures CellsOf(slots) == old(CellsOf(slots))[k := TakenCell(old(CellsOf(slots))[k], passack)]
      ensures Shrunk(old(slots), slots)
    {
      hide Rotation, OnePlace, Move;
      UnitAt(k);
      OtherSlots(slots, k);
      if !passack {
        StoreRotation(units[..], startPos, slots, k, null);
        EmptyOnce(slots, k);
        var tmp := units[p];
        units[p] := null;
        tmp.flag := 0;
        slots := slots[k := null];
      } else {
        units[p].flag := 2;
      }
    }

    /** The copying loop of readMsg has reached cell k, at position p. */
    ghost predicate Copying(c0: seq<Cell>, first: nat, k: nat, passack: bool, len: nat, p: int, rs: int,
        data: seq<byte>)
      reads this, units, set u | u in slots && u != null
    {
      && Valid() && first <= k <= |c0| == size
      && p == Move(startPos, k, size) && 0 <= p < size
      && CellsOf(slots) == TakenCells(c0, first, k, passack)
      && Copied(c0, first, k, len, data) && rs == len - |data|
    }

    /** The copying loop of readMsg, from cell `first` up to cell `end`. */
    method CopyOut(p0: int, q: int, passack: bool, len: nat, ghost first: nat, ghost end: nat) returns (data: seq<byte>)
      requires Valid() && first <= end <= size && end - first < size
      requires p0 == Move(startPos, first, size) && 0 <= p0 < size && (q + 1) % size == Move(startPos, end, size)
      requires forall j :: first <= j < end ==> CellsOf(slots)[j].Unread?
      modifies this`slots, units, (set u | u in slots && u != null)`flag
      ensures Valid() && CellsOf(slots) == TakenCells(old(CellsOf(slots)), first, end, passack)
      ensures Copied(old(CellsOf(slots)), first, end, len, data)
      ensures Shrunk(old(slots), slots)
    {
      hide Move, CellsOf, TakenCells, Copied, Valid, Copying;
      ghost var c0, k: nat := CellsOf(slots), first;
      var p, rs := p0, len;
      data := [];
      CopyStarts(first, passack, len, p0);
      while p != (q + 1) % size
        invariant Shrunk(old(slots), slots) && first <= k <= end
        invariant Copying(c0, first, k, passack, len, p, rs, data)
        decreases end - k
      {
        CopyAt(c0, first, k, passack, len, p, rs, data, end);
        p, rs, data := CopyUnit(p, rs, data, passack, len, c0, first, k);
        k := k + 1;
      }
      CopyAt(c0, first, k, passack, len, p, rs, data, end);
    }

    lemma CopyStarts(first: nat, passack: bool, len: nat, p: int)
      requires Valid() && first <= size && p == Move(startPos, first, size) && 0 <= p < size
      ensures Copying(CellsOf(slots), first, first, passack, len, p, len, [])
      ensures |CellsOf(slots)| == size
    {
      hide Move, CellsOf, TakenCells, Copied;
      InRing();
      NothingTaken(CellsOf(slots), first, passack, len);
    }

    lemma CopyAt(c0: seq<Cell>, first: nat, k: nat, passack: bool, len: nat, p: int, rs: int, data: seq<byte>, end: nat)
      requires Copying(c0, first, k, passack, len, p, rs, data) && k <= end <= size && end - first < size
      ensures p == Move(startPos, end, size) <==> k == end
      ensures Valid() && first <= k <= |c0| == size && CellsOf(slots) == TakenCells(c0, first, k, passack)
      ensures Copied(c0, first, k, len, data)
    {
      hide CellsOf, TakenCells, Copied;
      InRing();
      SamePosition(startPos, k, end, size);
    }

    method CopyUnit(p0: int, rs0: int, data0: seq<byte>, passack: bool, len: nat, ghost c0: seq<Cell>,
        ghost first: nat, ghost k: nat)
        returns (p: int, rs: int, data: seq<byte>)
      requires k < size && Copying(c0, first, k, passack, len, p0, rs0, data0) && c0[k].Unread?
      modifies this`slots, units, (set u | u in slots && u != null)`flag
      ensures Copying(c0, first, k + 1, passack, len, p, rs, data)
      ensures Shrunk(old(slots), slots)
    {
      hide Rotation, OnePlace, NotFree, Move, CellsOf, TakenCells, Copied;
      UnitAt(k);
      NextMove(startPos, k, size);
      TakenMore(c0, first, k, passack);
      CutGrows(c0, first, k, len, data0);
      p, rs := p0, rs0;
      var payload := units[p].packet.payload;
      var unitsize := |payload|;
      if unitsize > rs {
        unitsize := rs;
      }
      data := data0 + payload[..unitsize];
      rs := rs - unitsize;
      TakeUnit(p, passack, k);
      p := p + 1;
      if p == size {
        p := 0;
      }
    }

    /** The read position moves behind the acknowledged message that was read. */
    method MoveBehind(q: int, ghost k: nat)
      requires Valid() && k <= GetRcvDataSize() && (q + 1) % size == Move(startPos, k, size)
      modifies this`startPos, this`slots
      ensures Valid() && lastAckPos == old(lastAckPos) && GetRcvDataSize() == old(GetRcvDataSize()) - k
      ensures CellsOf(slots) == old(CellsOf(slots))[k..] + old(CellsOf(slots))[..k]
      ensures Shrunk(old(slots), slots)
    {
      hide OnePlace, NotFree;
      TurnedRing(units[..], startPos, slots, k);
      TurnedDistance(startPos, lastAckPos, k, size);
      startPos := (q + 1) % size;
      slots := slots[k..] + slots[..k];
    }

    /** The second half of readMsg: the cells from `first` up to `end` are copied and given up. */
    method TakeMessage(p: int, q: int, passack: bool, len: nat, ghost first: nat, ghost end: nat)
        returns (data: seq<byte>)
      requires Valid() && first <= end <= size && end - first < size && (passack || end <= GetRcvDataSize())
      requires p == Move(startPos, first, size) && 0 <= p < size && (q + 1) % size == Move(startPos, end, size)
      requires forall j :: first <= j < end ==> CellsOf(slots)[j].Unread?
      modifies this`startPos, this`slots, units, (set u | u in slots && u != null)`flag
      ensures Valid() && Copied(old(CellsOf(slots)), first, end, len, data)
      ensures var after := TakenCells(old(CellsOf(slots)), first, end, passack);
              MsgView() == if passack then old(MsgView()).(cells := after)
                           else MsgRing(after[end..] + after[..end], old(GetRcvDataSize()) - end, maxPos)
      ensures Shrunk(old(slots), slots)
    {
      hide Rotation, OnePlace, NotFree, Move, CellsOf, TakenCells, Copied, Distance;
      data := CopyOut(p, q, passack, len, first, end);
      if !passack {
        MoveBehind(q, end);
      }
    }

    /** readMsg: copies out one whole message, up to `len` bytes of it. */
    method ReadMsg(len: nat) returns (data: seq<byte>)
      requires Valid() && GetRcvDataSize() + maxPos < size
      modifies this`startPos, this`slots, units, (set u | u in slots && u != null)`flag
      ensures Valid() && MsgView() == MessageRing.ReadMsg(old(MsgView()), len).ring
      ensures data == MessageRing.ReadMsg(old(MsgView()), len).data
      ensures Shrunk(old(slots), slots)
    {
      hide Move, CellsOf, TakenCells, MessageRing.ScanMsg, MessageRing.ReadMsg, CopyUpTo, Copied, Distance,
          ShapeFrom, NotFree;
      InRing();
      ghost var r0 := MsgView();
      var p, q, passack, found := ScanMsg();
      ghost var s := MessageRing.ScanMsg(r0).1;
      ReadDone(r0, len, passack);
      if !found {
        return [];
      }
      InRing();
      ghost var end := CopyUpTo(s, size);
      CopyEnd(startPos, s, size);
      data := TakeMessage(p, q, passack, len, s.p, end);
      CopiedOnce(MessageRing.ScanMsg(r0).0.cells, s.p, end, len, data, MessageRing.ReadMsg(r0, len).data);
    }
  }

  /** Positions past the ACK position, counted from the read position. */
  lemma RingIndex(start: int, ds: int, offset: int, size: int)
    requires 0 <= start < size && 0 <= ds && 0 <= offset && ds + offset < size
    ensures (Move(start, ds, size) + offset) % size == Move(start, ds + offset, size)
    ensures 0 <= Move(start, ds + offset, size) < size
  {
    var p := Move(start, ds, size);
    if p + offset < size {
      ModSmall(p + offset, size);
    } else {
      ModTurn(p + offset - size, size);
      ModSmall(p + offset - size, size);
    }
  }

  lemma SlotAt(units: seq<Unit?>, start: int, slots: seq<Unit?>, k: nat)
    requires Rotation(units, start, slots) && k < |slots|
    ensures |slots| == |units| && 0 <= Move(start, k, |units|) < |units| && slots[k] == units[Move(start, k, |units|)]
  {
  }

  lemma FrontSlot(units: seq<Unit?>, start: int, slots: seq<Unit?>)
    requires Rotation(units, start, slots)
    ensures 0 <= start < |units| && |slots| == |units| && slots[0] == units[start]
  {
  }

  lemma FreedFront(units: seq<Unit?>, start: int, slots: seq<Unit?>)
    requires Rotation(units, start, slots) && OnePlace(slots) && slots[0] != null
    ensures Rotation(units[start := null], if start + 1 == |units| then 0 else start + 1, slots[1..] + [null])
    ensures OnePlace(slots[1..] + [null])
    ensures forall i :: 0 < i < |slots| ==> slots[i] != slots[0]
    ensures Payloads(slots[1..] + [null]) == Payloads(slots)[1..] + [None]
  {
    var n, p, after := |units|, if start + 1 == |units| then 0 else start + 1, slots[1..] + [null];
    forall i | 0 <= i < n
      ensures after[i] == units[start := null][Move(p, i, n)]
    {
      if i + 1 < n {
        assert Move(p, i, n) == Move(start, i + 1, n) && Move(start, i + 1, n) != start;
      } else {
        assert Move(p, i, n) == start;
      }
    }
  }

  lemma NextPosition(p: int, end: int, size: int)
    requires 0 <= p < size && 0 <= end < size && p != end
    ensures Distance(if p + 1 == size then 0 else p + 1, end, size) == Distance(p, end, size) - 1
  {
  }

  lemma StoreOnce(slots: seq<Unit?>, k: nat, u: Unit)
    requires OnePlace(slots) && k < |slots| && slots[k] == null && forall i :: 0 <= i < |slots| ==> slots[i] != u
    ensures OnePlace(slots[k := u])
    ensures Payloads(slots)[k] == None && Payloads(slots[k := u]) == Payloads(slots)[k := Some(u.packet.payload)]
  {
  }

  lemma FreeUnit(slots: seq<Unit?>, unit: Unit)
    requires NotFree(slots) && unit.flag == 0
    ensures forall i :: 0 <= i < |slots| ==> slots[i] != unit
  {
  }

  lemma StoreRotation(units: seq<Unit?>, start: int, slots: seq<Unit?>, k: nat, u: Unit?)
    requires Rotation(units, start, slots) && k < |slots|
    ensures 0 <= Move(start, k, |units|) < |units|
    ensures Rotation(units[Move(start, k, |units|) := u], start, slots[k := u])
  {
    forall i | 0 <= i < |slots| && i != k
      ensures Move(start, i, |units|) != Move(start, k, |units|)
    {
    }
  }

  lemma MoveZero(start: int, size: int)
    requires 0 <= start < size
    ensures Move(start, 0, size) == start
  {
  }

  lemma NextMove(start: int, k: nat, size: int)
    requires 0 <= start < size && k < size
    ensures 0 <= Move(start, k, size) < size && 0 <= Move(start, k + 1, size) < size
    ensures Move(start, k + 1, size) == if Move(start, k, size) + 1 == size then 0 else Move(start, k, size) + 1
  {
  }

  /** A position short of the end is not the end's. */
  lemma NotThere(start: int, k: nat, ds: nat, end: int, size: int)
    requires 0 <= start < size && k <= ds < size && end == Move(start, ds, size) && Move(start, k, size) != end
    ensures k < ds
  {
  }

  lemma IsThere(start: int, k: nat, ds: nat, end: int, size: int)
    requires 0 <= start < size && k <= ds < size && end == Move(start, ds, size) && Move(start, k, size) == end
    ensures k == ds
  {
  }

  lemma DropCells(slots: seq<Unit?>)
    requires slots != []
    ensures CellsOf(slots[1..] + [null]) == CellsOf(slots)[1..] + [Empty]
  {
  }

  lemma EmptyFront(units: seq<Unit?>, start: int, slots: seq<Unit?>)
    requires Rotation(units, start, slots) && OnePlace(slots) && slots[0] == null && NotFree(slots)
    ensures Rotation(units, if start + 1 == |units| then 0 else start + 1, slots[1..] + [null])
    ensures OnePlace(slots[1..] + [null]) && NotFree(slots[1..] + [null])
  {
    var n, p, after := |units|, if start + 1 == |units| then 0 else start + 1, slots[1..] + [null];
    forall i | 0 <= i < n
      ensures after[i] == units[Move(p, i, n)]
    {
      assert Move(p, i, n) == if i + 1 < n then Move(start, i + 1, n) else start;
    }
  }

  /** The array position of cell k; -1 stands for none. */
  function PositionOf(start: int, k: int, size: int): int {
    if k == -1 then -1 else Move(start, k, size)
  }

  lemma SomeData(start: int, end: int, size: int)
    requires 0 <= start < size && 0 <= end < size && start != end
    ensures Distance(start, end, size) > 0
  {
  }

  lemma NoData(start: int, size: int)
    requires 0 <= start < size
    ensures Distance(start, start, size) == 0
  {
  }

  lemma SkipCases(r: MsgRing)
    requires r.dataSize < |r.cells|
    ensures r.dataSize == 0 ==> Skip(r) == r
    ensures r.dataSize > 0 ==>
              Skip(r) ==
              if r.cells[0].Unread? && r.cells[0].packet.msg.first && LooksGood(r.cells, 0, r.dataSize) then r
              else Skip(Drop(r))
  {
  }

  lemma FindCases(cells: seq<Cell>, ds: nat, p: int, q: nat, n: nat)
    requires -1 <= p < q <= n < |cells|
    ensures !cells[q].Unread? ==> Find(cells, ds, p, q, n) == Find(cells, ds, -1, q + 1, n)
    ensures cells[q].Unread? ==>
              var msg := cells[q].packet.msg;
              var p1: int := if msg.first then q else p;
              Find(cells, ds, p, q, n) ==
              if msg.last && p1 != -1 && (q < ds || !msg.inOrder) then Scan(true, p1, q)
              else Find(cells, ds, p1, q + 1, n)
  {
  }

  lemma FindEnds(cells: seq<Cell>, ds: nat, p: int, n: nat)
    requires -1 <= p <= n < |cells|
    ensures Find(cells, ds, p, n + 1, n) == Scan(false, p, n + 1)
  {
  }

  lemma AtAck(start: int, k: nat, ds: nat, ack: int, size: int)
    requires 0 <= start < size && ds < size && k <= size && ack == Move(start, ds, size)
    ensures Move(start, k, size) == ack <==> k == ds || (k == size && ds == 0)
  {
  }

  lemma ScanCases(r: MsgRing)
    requires r.dataSize + r.maxPos < |r.cells| && (r.dataSize > 0 || r.maxPos > 0)
    ensures MessageRing.ScanMsg(r).0 == Skip(r)
    ensures var s := Search(Skip(r));
            MessageRing.ScanMsg(r).1 == if !s.found && s.p != -1 && s.q + 1 == s.p + |r.cells| then s.(found := true)
                else s
  {
  }

  /** The test for a message that fills the ring. */
  lemma FullRing(start: int, s: Scan, size: int)
    requires 0 <= start < size && 1 < size && 0 <= s.q <= size && -1 <= s.p < size && s.p <= s.q
    ensures s.p != -1 ==> PositionOf(start, s.p, size) != -1
    ensures s.p != -1 && s.p < s.q ==>
        ((PositionOf(start, s.q, size) + 1) % size == PositionOf(start, s.p, size) <==> s.q + 1 == s.p + size)
  {
    Following(PositionOf(start, s.q, size), size);
  }

  lemma Following(q: int, size: int)
    requires 0 <= q < size
    ensures (q + 1) % size == if q + 1 < size then q + 1 else 0
  {
    if q + 1 < size {
      ModSmall(q + 1, size);
    } else {
      ModTurn(0, size);
      ModSmall(0, size);
    }
  }

  function TakenCell(c: Cell, passack: bool): Cell {
    if passack && c != Empty then Consumed(c.packet) else Empty
  }

  /** The cells from p up to k after they were copied. */
  function TakenCells(cells: seq<Cell>, p: nat, k: nat, passack: bool): (cs: seq<Cell>)
    requires p <= k <= |cells|
    ensures |cs| == |cells|
    ensures forall i :: 0 <= i < |cs| ==> cs[i] == if p <= i < k then TakenCell(cells[i], passack) else cells[i]
  {
    seq(|cells|, i requires 0 <= i < |cells| => if p <= i < k then TakenCell(cells[i], passack) else cells[i])
  }

  /** The bytes copied from the cells from p up to k. */
  ghost predicate Copied(cells: seq<Cell>, p: nat, k: nat, len: nat, data: seq<byte>)
    requires p <= k <= |cells|
  {
    data == Cut(Flatten(CellPayloads(cells[p..k])), len)
  }

  lemma CopiedOnce(cells: seq<Cell>, p: nat, k: nat, len: nat, data: seq<byte>, data': seq<byte>)
    requires p <= k <= |cells| && Copied(cells, p, k, len, data) && Copied(cells, p, k, len, data')
    ensures data == data'
  {
  }

  lemma TakenMore(cells: seq<Cell>, p: nat, k: nat, passack: bool)
    requires p <= k < |cells|
    ensures TakenCells(cells, p, k, passack)[k] == cells[k]
    ensures TakenCells(cells, p, k, passack)[k := TakenCell(cells[k], passack)] == TakenCells(cells, p, k + 1, passack)
  {
  }

  /** One more payload, cut to what is still wanted. */
  lemma CutGrows(cells: seq<Cell>, p: nat, k: nat, len: nat, data: seq<byte>)
    requires p <= k < |cells| && cells[k].Unread? && Copied(cells, p, k, len, data)
    ensures var b := cells[k].packet.payload;
            |data| <= len && Copied(cells, p, k + 1, len, data + b[..Min(len - |data|, |b|)])
  {
    hide Flatten;
    var b := cells[k].packet.payload;
    var c := CellPayloads(cells[p..k + 1]);
    assert c[..k - p] == CellPayloads(cells[p..k]) && c[..k + 1 - p] == c && c[k - p] == b;
    FlattenSnoc(c, k - p);
  }

  lemma SamePosition(start: int, k: nat, e: nat, size: int)
    requires 0 <= start < size && k <= e <= size && e - k < size
    ensures Move(start, k, size) == Move(start, e, size) <==> k == e
  {
  }

  /** Where the copying stops; when the message found fills the ring it stops before it begins. */
  function CopyUpTo(s: Scan, size: nat): int {
    if s.q + 1 == s.p + size then s.p else s.q + 1
  }

  lemma CopyEnd(start: int, s: Scan, size: int)
    requires 0 <= start < size && 1 < size && 0 <= s.p < size && s.p <= s.q <= size
    requires s.q + 1 != s.p + size ==> s.q < size
    ensures 0 <= PositionOf(start, s.p, size) < size && PositionOf(start, s.p, size) == Move(start, s.p, size)
    ensures s.p <= CopyUpTo(s, size) <= size && CopyUpTo(s, size) - s.p < size
    ensures (PositionOf(start, s.q, size) + 1) % size == Move(start, CopyUpTo(s, size), size)
  {
    Following(PositionOf(start, s.q, size), size);
  }

  lemma {:induction false} FindsUnread(cells: seq<Cell>, ds: nat, p: int, q: nat, n: nat)
    requires -1 <= p < q <= n + 1 && n < |cells|
    requires p != -1 ==> forall j :: p <= j < q ==> cells[j].Unread?
    ensures var s := Find(cells, ds, p, q, n);
            s.found ==> 0 <= s.p && s.q <= n && forall j :: s.p <= j <= s.q ==> cells[j].Unread?
    decreases n + 1 - q
  {
    if q <= n {
      if !cells[q].Unread? {
        FindsUnread(cells, ds, -1, q + 1, n);
      } else {
        var msg := cells[q].packet.msg;
        var p1: int := if msg.first then q else p;
        if !(msg.last && p1 != -1 && (q < ds || !msg.inOrder)) {
          FindsUnread(cells, ds, p1, q + 1, n);
        }
      }
    }
  }

  /** What the scan found, and what readMsg makes of it. */
  lemma ReadCases(r: MsgRing, len: nat)
    requires r.dataSize + r.maxPos < |r.cells|
    ensures var r1, s := MessageRing.ScanMsg(r).0, MessageRing.ScanMsg(r).1;
            var rd := MessageRing.ReadMsg(r, len);
            if !s.found then rd.ring == r1 && rd.data == []
            else
              && 0 <= s.p < |r.cells| && s.p <= s.q <= |r.cells|
              && (if s.q + 1 == s.p + |r.cells| then
                    s.q >= r1.dataSize && rd.ring == r1 && rd.data == []
                  else
                    && s.q < |r.cells|
                    && (forall j :: s.p <= j <= s.q ==> r1.cells[j].Unread?)
                    && rd.data == Cut(Flatten(CellPayloads(r1.cells[s.p..s.q + 1])), len)
                    && rd.ring ==
                       if s.q < r1.dataSize then
                         MsgRing(Release(r1.cells, s.p, s.q), r1.dataSize - (s.q + 1), r1.maxPos)
                       else
                         r1.(cells := Mark(r1.cells, s.p, s.q)))
  {
    hide Find, Skip, Cut, Flatten, Release, Mark;
    if r.dataSize > 0 || r.maxPos > 0 {
      ScanCases(r);
      var r1 := Skip(r);
      FindsUnread(r1.cells, r1.dataSize, -1, 0, r1.dataSize + r1.maxPos);
    }
  }

  /** readMsg in the order in which the method goes about it. */
  lemma ReadDone(r: MsgRing, len: nat, passack: bool)
    requires r.dataSize + r.maxPos < |r.cells|
    requires var r1, s := MessageRing.ScanMsg(r).0, MessageRing.ScanMsg(r).1;
             s.found ==> (passack <==> s.q >= r1.dataSize)
    ensures var r1, s := MessageRing.ScanMsg(r).0, MessageRing.ScanMsg(r).1;
            var rd := MessageRing.ReadMsg(r, len);
            var end := CopyUpTo(s, |r.cells|);
            if !s.found then rd.ring == r1 && rd.data == []
            else
              && 0 <= s.p < |r.cells| && s.p <= s.q <= |r.cells| && (s.q + 1 != s.p + |r.cells| ==> s.q < |r.cells|)
              && s.p <= end <= |r1.cells| && (forall j :: s.p <= j < end ==> r1.cells[j].Unread?)
              && Copied(r1.cells, s.p, end, len, rd.data)
              && var after := TakenCells(r1.cells, s.p, end, passack);
                 if passack then rd.ring == r1.(cells := after)
                 else
                   && end <= r1.dataSize
                   && rd.ring == MsgRing(after[end..] + after[..end], r1.dataSize - end, r1.maxPos)
  {
    hide MessageRing.ScanMsg, MessageRing.ReadMsg, TakenCells, Release, Mark;
    ReadCases(r, len);
    var r1, s := MessageRing.ScanMsg(r).0, MessageRing.ScanMsg(r).1;
    if s.found {
      TakenIs(r1.cells, s.p, CopyUpTo(s, |r.cells|));
      NothingTaken(r1.cells, s.p, passack, len);
    }
  }

  lemma TakenIs(cells: seq<Cell>, p: nat, end: nat)
    requires p <= end <= |cells| && forall j :: p <= j < end ==> cells[j].Unread?
    ensures p == end ==> TakenCells(cells, p, end, true) == cells
    ensures p < end ==> TakenCells(cells, p, end, true) == Mark(cells, p, end - 1)
    ensures p < end ==>
              var after := TakenCells(cells, p, end, false); after[end..] + after[..end] == Release(cells, p, end - 1)
  {
  }

  lemma TurnedRing(units: seq<Unit?>, start: int, slots: seq<Unit?>, k: nat)
    requires Rotation(units, start, slots) && OnePlace(slots) && NotFree(slots) && k < |slots|
    ensures var after := slots[k..] + slots[..k];
            && Rotation(units, Move(start, k, |units|), after) && OnePlace(after) && NotFree(after)
            && CellsOf(after) == CellsOf(slots)[k..] + CellsOf(slots)[..k]
  {
    var n, after := |units|, slots[k..] + slots[..k];
    forall i | 0 <= i < n
      ensures after[i] == units[Move(Move(start, k, n), i, n)]
    {
      if i + k < n {
        assert Move(Move(start, k, n), i, n) == Move(start, i + k, n);
      } else {
        assert Move(Move(start, k, n), i, n) == Move(start, i + k - n, n);
      }
    }
  }

  lemma TurnedDistance(start: int, end: int, k: nat, size: int)
    requires 0 <= start < size && 0 <= end < size && k <= Distance(start, end, size)
    ensures 0 <= Move(start, k, size) < size
    ensures Distance(Move(start, k, size), end, size) == Distance(start, end, size) - k
  {
  }

  lemma NothingTaken(cells: seq<Cell>, p: nat, passack: bool, len: nat)
    requires p <= |cells|
    ensures TakenCells(cells, p, p, passack) == cells
    ensures Copied(cells, p, p, len, [])
  {
    assert CellPayloads(cells[p..p]) == [];
  }

  lemma OtherSlots(slots: seq<Unit?>, k: nat)
    requires OnePlace(slots) && k < |slots| && slots[k] != null
    ensures forall i :: 0 <= i < |slots| && i != k ==> slots[i] != slots[k]
    ensures forall u :: u in slots[k := null] && u != null ==> u in slots && u != slots[k]
    ensures forall u :: u in slots && u != slots[k] ==> u in slots[k := null]
  {
    var after := slots[k := null];
    forall u | u in slots && u != slots[k]
      ensures u in after
    {
      var i :| 0 <= i < |slots| && slots[i] == u;
      assert after[i] == u;
    }
  }

  lemma EmptyOnce(slots: seq<Unit?>, k: nat)
    requires OnePlace(slots) && k < |slots|
    ensures OnePlace(slots[k := null])
  {
  }
}
