/** A message parcel: a growing row of typed cells, read from the front. */
module Parcels {
  import opened Machine

  datatype Cell =
    | Word(w: uint32)
    | Half(h: uint16)
    | Octet(b: byte)
    | Str(s: string)
    | Block(bytes: seq<byte>)

  /** The descriptor of the service's interface, which travels in front of every request. */
  const IUSB_SRV := "ohos.usb.IUsbSrv"

  function IntCell(v: int32): Cell {
    Word(ToUint32(v))
  }

  /** A signed word travels in two's complement. */
  lemma IntCellMeans(v: int32)
    ensures IntCell(v) == Word(if v < 0 then v + 0x1_0000_0000 else v)
  {
  }

  lemma ByteReadBack(b: byte)
    ensures ToByte(ToInt32(ToUint32(b))) == b
  {
  }

  lemma IntReadBack(v: int32)
    ensures ToInt32(ToUint32(v)) == v
  {
  }

  /** What a parcel holds after writing cells one by one, given that it takes no more than room cells. */
  function Fill(before: seq<Cell>, cells: seq<Cell>, room: nat): seq<Cell> {
    if |before| + |cells| <= room then before + cells
    else if room <= |before| then before
    else before + cells[..room - |before|]
  }

  predicate Fits(before: seq<Cell>, cells: seq<Cell>, room: nat) {
    |before| + |cells| <= room
  }

  /** Writing a, then b if a was taken whole, is writing a + b. */
  lemma FillTwice(before: seq<Cell>, a: seq<Cell>, b: seq<Cell>, room: nat)
    ensures Fill(before, a + b, room)
         == if Fits(before, a, room) then Fill(Fill(before, a, room), b, room) else Fill(before, a, room)
    ensures Fits(before, a + b, room) <==> Fits(before, a, room) && Fits(Fill(before, a, room), b, room)
  {
  }

  class MessageParcel {
    var cells: seq<Cell>
    var pos: nat
    const room: nat  // the platform refuses a write at some point; when is arbitrary

    constructor (room: nat)
      ensures Valid() && cells == [] && pos == 0 && this.room == room
    {
      cells, pos, this.room := [], 0, room;
    }

    ghost predicate Valid()
      reads this
    {
      pos <= |cells| <= room
    }

    function Unread(): seq<Cell>
      requires Valid()
      reads this
    {
      cells[pos..]
    }

    /** A run of write macros: each writes its cell, the first refusal ends the caller. */
    method WriteRun(run: seq<Cell>) returns (code: Code)
      requires Valid()
      modifies this`cells
      ensures Valid() && cells == Fill(old(cells), run, room)
      ensures code == if Fits(old(cells), run, room) then UecOk else UecServiceWriteParcelError
    {
      for k := 0 to |run|
        invariant cells == old(cells) + run[..k] && |cells| <= room
      {
        if |cells| >= room {
          return UecServiceWriteParcelError;
        }
        cells := cells + [run[k]];
        assert run[..k + 1] == run[..k] + [run[k]];
      }
      code := UecOk;
    }

    method WriteInterfaceToken() returns (ok: bool)
      requires Valid()
      modifies this`cells
      ensures Valid() && cells == Fill(old(cells), [Str(IUSB_SRV)], room)
      ensures ok == Fits(old(cells), [Str(IUSB_SRV)], room)
    {
      var code := WriteRun([Str(IUSB_SRV)]);
      ok := code == UecOk;
    }

    method ReadUint32() returns (ok: bool, v: uint32)
      requires Valid()
      modifies this`pos
      ensures Valid() && ok == (old(pos) < |cells| && cells[old(pos)].Word?)
      ensures if ok then pos == old(pos) + 1 && v == cells[old(pos)].w else pos == old(pos)
    {
      v := *;
      ok := pos < |cells| && cells[pos].Word?;
      if ok {
        v, pos := cells[pos].w, pos + 1;
      }
    }

    method ReadInt32() returns (ok: bool, v: int32)
      requires Valid()
      modifies this`pos
      ensures Valid() && ok == (old(pos) < |cells| && cells[old(pos)].Word?)
      ensures if ok then pos == old(pos) + 1 && v == ToInt32(cells[old(pos)].w) else pos == old(pos)
    {
      v := *;
      ok := pos < |cells| && cells[pos].Word?;
      if ok {
        v, pos := ToInt32(cells[pos].w), pos + 1;
      }
    }

    method ReadUint16() returns (ok: bool, v: uint16)
      requires Valid()
      modifies this`pos
      ensures Valid() && ok == (old(pos) < |cells| && cells[old(pos)].Half?)
      ensures if ok then pos == old(pos) + 1 && v == cells[old(pos)].h else pos == old(pos)
    {
      v := *;
      ok := pos < |cells| && cells[pos].Half?;
      if ok {
        v, pos := cells[pos].h, pos + 1;
      }
    }

    method ReadUint8() returns (ok: bool, v: byte)
      requires Valid()
      modifies this`pos
      ensures Valid() && ok == (old(pos) < |cells| && cells[old(pos)].Octet?)
      ensures if ok then pos == old(pos) + 1 && v == cells[old(pos)].b else pos == old(pos)
    {
      v := *;
      ok := pos < |cells| && cells[pos].Octet?;
      if ok {
        v, pos := cells[pos].b, pos + 1;
      }
    }

    method ReadString() returns (ok: bool, v: string)
      requires Valid()
      modifies this`pos
      ensures Valid() && ok == (old(pos) < |cells| && cells[old(pos)].Str?)
      ensures if ok then pos == old(pos) + 1 && v == cells[old(pos)].s else pos == old(pos)
    {
      v := *;
      ok := pos < |cells| && cells[pos].Str?;
      if ok {
        v, pos := cells[pos].s, pos + 1;
      }
    }

    method ReadUnpadBuffer(size: uint32) returns (ok: bool, v: seq<byte>)
      requires Valid()
      modifies this`pos
      ensures Valid() && ok == (old(pos) < |cells| && cells[old(pos)].Block? && |cells[old(pos)].bytes| == size)
      ensures if ok then pos == old(pos) + 1 && v == cells[old(pos)].bytes else pos == old(pos)
    {
      v := *;
      ok := pos < |cells| && cells[pos].Block? && |cells[pos].bytes| == size;
      if ok {
        v, pos := cells[pos].bytes, pos + 1;
      }
    }
  }
}
