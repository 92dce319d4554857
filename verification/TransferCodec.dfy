/**
 Queued transfers between a client and the service: a request names a pipe and carries two buffers; a
 wait names a device and a timeout, and its reply carries the two buffers of the finished transfer.
 */
module TransferCodec {
  import opened Machine
  import opened Parcels
  import opened StubWriter
  import opened BufferCodec

  datatype UsbDev = UsbDev(busNum: byte, devAddr: byte)
  datatype UsbPipe = UsbPipe(interfaceId: byte, endpointId: byte)

  datatype Transfer = Transfer(dev: UsbDev, pipe: UsbPipe, buffers: Buffers)
  datatype Buffers = Buffers(clientData: seq<byte>, bufferData: seq<byte>)
  datatype Wait = Wait(dev: UsbDev, timeOut: int32)

  /** usbd's answer to a wait. */
  datatype Answer = Answer(code: Code, buffers: Buffers)

  /** What reading a message gives: its contents and what is left, or the code of the failure. */
  datatype Message<+T> = Unreadable(code: Code) | Whole(value: T, rest: seq<Cell>)

  // ---------------------------------------------------------------- the messages

  function PipeCells(dev: UsbDev, pipe: UsbPipe): seq<Cell> {
    [Octet(dev.busNum), Octet(dev.devAddr), Octet(pipe.interfaceId), Octet(pipe.endpointId)]
  }

  function EncodeBuffers(b: Buffers): seq<Cell> {
    EncodeBuffer(b.clientData) + EncodeBuffer(b.bufferData)
  }

  function EncodeTransfer(t: Transfer): seq<Cell> {
    PipeCells(t.dev, t.pipe) + EncodeBuffers(t.buffers)
  }

  function EncodeWait(w: Wait): seq<Cell> {
    [Octet(w.dev.busNum), Octet(w.dev.devAddr), IntCell(w.timeOut)]
  }

  function DecodeBuffers(s: seq<Cell>): Message<Buffers> {
    match DecodeBuffer(s)
    case Failed => Unreadable(UecServiceReadParcelError)
    case Read(client, more) =>
      match DecodeBuffer(more)
      case Failed => Unreadable(UecServiceReadParcelError)
      case Read(buffer, rest) => Whole(Buffers(client, buffer), rest)
  }

  predicate StartsWithOctets(s: seq<Cell>, n: nat) {
    |s| >= n && forall k :: 0 <= k < n ==> s[k].Octet?
  }

  /** The service reports an unreadable byte or timeout as a write error. */
  function DecodeTransfer(s: seq<Cell>): Message<Transfer> {
    if !StartsWithOctets(s, 4) then Unreadable(UecServiceWriteParcelError)
    else match DecodeBuffers(s[4..])
      case Unreadable(code) => Unreadable(code)
      case Whole(buffers, rest) => Whole(Transfer(UsbDev(s[0].b, s[1].b), UsbPipe(s[2].b, s[3].b), buffers), rest)
  }

  function DecodeWait(s: seq<Cell>): Message<Wait> {
    if !StartsWithOctets(s, 2) || |s| < 3 || !s[2].Word? then Unreadable(UecServiceWriteParcelError)
    else Whole(Wait(UsbDev(s[0].b, s[1].b), ToInt32(s[2].w)), s[3..])
  }

  // ---------------------------------------------------------------- round trips

  function KeptBuffers(b: Buffers): Buffers {
    Buffers(Kept(b.clientData), Kept(b.bufferData))
  }

  /** Buffers arrive cut to a length that fits 32 bits, which is whole iff each is shorter than 4 GB. */
  lemma TransferBuffersRoundTrip(b: Buffers, suffix: seq<Cell>)
    ensures DecodeBuffers(EncodeBuffers(b) + suffix) == Whole(KeptBuffers(b), suffix)
    ensures KeptBuffers(b) == b <==> |b.clientData| < 0x1_0000_0000 && |b.bufferData| < 0x1_0000_0000
  {
    hide Kept, EncodeBuffer, DecodeBuffer;
    BufferRoundTrip(b.clientData, EncodeBuffer(b.bufferData) + suffix);
    BufferRoundTrip(b.bufferData, suffix);
    assert EncodeBuffers(b) + suffix == EncodeBuffer(b.clientData) + (EncodeBuffer(b.bufferData) + suffix);
  }

  /** The whole request of a transfer comes back, and nothing behind it is read. */
  lemma TransferRoundTrip(t: Transfer, suffix: seq<Cell>)
    ensures DecodeTransfer(EncodeTransfer(t) + suffix) == Whole(t.(buffers := KeptBuffers(t.buffers)), suffix)
  {
    hide EncodeBuffers, DecodeBuffers, KeptBuffers;
    TransferBuffersRoundTrip(t.buffers, suffix);
    assert (EncodeTransfer(t) + suffix)[4..] == EncodeBuffers(t.buffers) + suffix;
  }

  /** The whole request of a wait comes back, negative timeouts included. */
  lemma WaitRoundTrip(w: Wait, suffix: seq<Cell>)
    ensures DecodeWait(EncodeWait(w) + suffix) == Whole(w, suffix)
  {
    IntReadBack(w.timeOut);
    assert (EncodeWait(w) + suffix)[3..] == suffix;
  }

  // ---------------------------------------------------------------- exactly the written messages

  lemma TransferBuffersReadExact(s: seq<Cell>, b: Buffers, rest: seq<Cell>)
    ensures DecodeBuffers(s) == Whole(b, rest) <==>
      s == EncodeBuffers(b) + rest && |b.clientData| < 0x1_0000_0000 && |b.bufferData| < 0x1_0000_0000
    ensures DecodeBuffers(s).Unreadable? ==> DecodeBuffers(s).code == UecServiceReadParcelError
  {
    hide DecodeBuffer, EncodeBuffer;
    var more := EncodeBuffer(b.bufferData) + rest;
    assert EncodeBuffers(b) + rest == EncodeBuffer(b.clientData) + more;
    BufferReadExact(s, b.clientData, more);
    BufferReadExact(more, b.bufferData, rest);
    if DecodeBuffers(s) == Whole(b, rest) {
      BufferReadExact(DecodeBuffer(s).rest, b.bufferData, rest);
    }
  }

  /** Bus, address, interface and endpoint in this order, then the buffers; every other row is unreadable. */
  lemma TransferReadExact(s: seq<Cell>, t: Transfer, rest: seq<Cell>)
    ensures var octets := |s| >= 4 && s[0].Octet? && s[1].Octet? && s[2].Octet? && s[3].Octet?;
      && (!octets ==> DecodeTransfer(s) == Unreadable(UecServiceWriteParcelError))
      && (octets ==> DecodeTransfer(s).Whole? || DecodeTransfer(s) == Unreadable(UecServiceReadParcelError))
    ensures DecodeTransfer(s) == Whole(t, rest) <==>
      && |t.buffers.clientData| < 0x1_0000_0000 && |t.buffers.bufferData| < 0x1_0000_0000
      && s == [Octet(t.dev.busNum), Octet(t.dev.devAddr), Octet(t.pipe.interfaceId), Octet(t.pipe.endpointId)]
              + EncodeBuffers(t.buffers) + rest
  {
    hide EncodeBuffers, DecodeBuffers;
    var head := [Octet(t.dev.busNum), Octet(t.dev.devAddr), Octet(t.pipe.interfaceId), Octet(t.pipe.endpointId)];
    assert head + EncodeBuffers(t.buffers) + rest == head + (EncodeBuffers(t.buffers) + rest);
    if |s| >= 4 {
      TransferBuffersReadExact(s[4..], t.buffers, rest);
      assert s == s[..4] + s[4..];
      assert s[..4] == [s[0], s[1], s[2], s[3]];
    }
  }

  /** Bus and address, then the timeout; every other row is unreadable. */
  lemma WaitReadExact(s: seq<Cell>, w: Wait, rest: seq<Cell>)
    ensures DecodeWait(s) == Whole(w, rest) <==>
      s == [Octet(w.dev.busNum), Octet(w.dev.devAddr), IntCell(w.timeOut)] + rest
    ensures DecodeWait(s).Unreadable? ==> DecodeWait(s).code == UecServiceWriteParcelError
  {
    if |s| >= 3 {
      assert s == [s[0], s[1], s[2]] + s[3..];
    }
  }

  // ---------------------------------------------------------------- the client's writers

  method SetDeviceMessage(data: MessageParcel, dev: UsbDev) returns (code: Code)
    requires data.Valid()
    modifies data`cells
    ensures Written(old(data.cells), [Octet(dev.busNum), Octet(dev.devAddr)], data, code)
  {
    code := data.WriteRun([Octet(dev.busNum), Octet(dev.devAddr)]);
  }

  /** The code of SetDeviceMessage is ignored; a parcel that refused it refuses the next byte too. */
  method WriteTransfer(data: MessageParcel, t: Transfer) returns (code: Code)
    requires data.Valid()
    modifies data`cells
    ensures data.Valid() && data.cells == Fill(old(data.cells), EncodeTransfer(t), data.room)
    ensures code ==
      if Fits(old(data.cells), EncodeTransfer(t), data.room) then UecOk
      else if Fits(old(data.cells), PipeCells(t.dev, t.pipe), data.room) then ErrInvalidValue
      else UecServiceWriteParcelError
  {
    hide EncodeBuffer;
    ghost var before, room := data.cells, data.room;
    ghost var dev, pipe := [Octet(t.dev.busNum), Octet(t.dev.devAddr)],
                           [Octet(t.pipe.interfaceId), Octet(t.pipe.endpointId)];
    ghost var client, buffer := EncodeBuffer(t.buffers.clientData), EncodeBuffer(t.buffers.bufferData);
    assert PipeCells(t.dev, t.pipe) == dev + pipe;
    hide PipeCells;
    FillTwice(before, dev, pipe, room);
    FillTwice(before, dev + pipe, client + buffer, room);
    var ignored := SetDeviceMessage(data, t.dev);
    if ignored != UecOk {
      NothingFits(before, dev, pipe, room);
    }
    code := data.WriteRun([Octet(t.pipe.interfaceId), Octet(t.pipe.endpointId)]);
    if code != UecOk {
      return;
    }
    FillTwice(data.cells, client, buffer, room);
    code := SetBufferMessage(data, t.buffers.clientData);
    if code != UecOk {
      return ErrInvalidValue;
    }
    code := SetBufferMessage(data, t.buffers.bufferData);
    if code != UecOk {
      return ErrInvalidValue;
    }
  }

  /** Once a parcel has refused a cell, writing on changes nothing. */
  lemma NothingFits(before: seq<Cell>, a: seq<Cell>, b: seq<Cell>, room: nat)
    requires !Fits(before, a, room) && |before| <= room && b != []
    ensures var now := Fill(before, a, room); Fill(now, b, room) == now && !Fits(now, b, room)
  {
  }

  method WriteWait(data: MessageParcel, w: Wait) returns (code: Code)
    requires data.Valid()
    modifies data`cells
    ensures Written(old(data.cells), EncodeWait(w), data, code)
  {
    ghost var before, room := data.cells, data.room;
    ghost var dev, time := [Octet(w.dev.busNum), Octet(w.dev.devAddr)], [IntCell(w.timeOut)];
    assert EncodeWait(w) == dev + time;
    hide EncodeWait;
    FillTwice(before, dev, time, room);
    var ignored := SetDeviceMessage(data, w.dev);
    if ignored != UecOk {
      NothingFits(before, dev, time, room);
    }
    code := data.WriteRun([IntCell(w.timeOut)]);
  }

  // ---------------------------------------------------------------- the service

  /** usbd is asked iff the request can be read, and for exactly what was read. */
  method DoRequestQueue(data: MessageParcel, usbd: Transfer -> Code) returns (code: Code)
    requires data.Valid()
    modifies data`pos
    ensures data.Valid()
    ensures match DecodeTransfer(old(data.Unread()))
      case Unreadable(failure) => code == failure
      case Whole(t, rest) => code == usbd(t) && data.Unread() == rest
  {
    hide DecodeBuffer;
    ghost var s := data.Unread();
    var ok, busNum := data.ReadUint8();
    if !ok {
      return UecServiceWriteParcelError;
    }
    var devAddr;
    ok, devAddr := data.ReadUint8();
    if !ok {
      return UecServiceWriteParcelError;
    }
    var ifId;
    ok, ifId := data.ReadUint8();
    if !ok {
      return UecServiceWriteParcelError;
    }
    var endpoint;
    ok, endpoint := data.ReadUint8();
    if !ok {
      return UecServiceWriteParcelError;
    }
    assert data.Unread() == s[4..];
    var clientData, bufferData;
    code, clientData := GetBufferMessage(data);
    if code != UecOk {
      return;
    }
    code, bufferData := GetBufferMessage(data);
    if code != UecOk {
      return;
    }
    code := usbd(Transfer(UsbDev(busNum, devAddr), UsbPipe(ifId, endpoint), Buffers(clientData, bufferData)));
  }

  /** The reply carries the buffers iff the request can be read, usbd succeeds, and they fit. */
  method DoRequestWait(data: MessageParcel, reply: MessageParcel, usbd: Wait -> Answer) returns (code: Code)
    requires data.Valid() && reply.Valid() && data != reply
    modifies data`pos, reply`cells
    ensures data.Valid() && reply.Valid()
    ensures match DecodeWait(old(data.Unread()))
      case Unreadable(failure) => code == failure && reply.cells == old(reply.cells)
      case Whole(w, rest) =>
        && data.Unread() == rest
        && if usbd(w).code != UecOk then code == usbd(w).code && reply.cells == old(reply.cells)
           else Written(old(reply.cells), EncodeBuffers(usbd(w).buffers), reply, code)
  {
    hide EncodeBuffer, Fill, Fits;
    ghost var s := data.Unread();
    var ok, busNum := data.ReadUint8();
    if !ok {
      return UecServiceWriteParcelError;
    }
    var devAddr;
    ok, devAddr := data.ReadUint8();
    if !ok {
      return UecServiceWriteParcelError;
    }
    var timeOut;
    ok, timeOut := data.ReadInt32();
    if !ok {
      return UecServiceWriteParcelError;
    }
    assert data.Unread() == s[3..];
    var answer := usbd(Wait(UsbDev(busNum, devAddr), timeOut));
    if answer.code != UecOk {
      return answer.code;
    }
    ghost var client, buffer := EncodeBuffer(answer.buffers.clientData), EncodeBuffer(answer.buffers.bufferData);
    FillTwice(reply.cells, client, buffer, reply.room);
    code := SetBufferMessage(reply, answer.buffers.clientData);
    if code != UecOk {
      return;
    }
    code := SetBufferMessage(reply, answer.buffers.bufferData);
  }

  // ---------------------------------------------------------------- the whole calls

  /**
   Queueing: usbd gets the client's transfer unchanged iff the service is connected and the request with
   its token fits the parcel, and its code is handed back; otherwise the code says what failed.
   */
  method RequestQueue(t: Transfer, connected: bool, room: nat, usbd: Transfer -> Code) returns (code: Code)
    ensures code ==
      if !connected then UecServiceInnerErr
      else if room < 1 then ErrEnoughData
      else if 1 + |EncodeTransfer(t)| <= room then usbd(t.(buffers := KeptBuffers(t.buffers)))
      else if room < 1 + 4 then UecServiceWriteParcelError
      else ErrInvalidValue
  {
    hide EncodeBuffers, DecodeTransfer, KeptBuffers;
    if !connected {
      return UecServiceInnerErr;
    }
    var data := new MessageParcel(room);
    var ok := data.WriteInterfaceToken();
    if !ok {
      return ErrEnoughData;
    }
    code := WriteTransfer(data, t);
    if code != UecOk {
      return;
    }
    TransferRoundTrip(t, []);
    assert data.Unread()[1..] == EncodeTransfer(t) + [];
    code := CheckInterfaceToken(data);
    code := DoRequestQueue(data, usbd);
  }

  /**
   Waiting: usbd is asked for exactly this device and timeout iff the request fits behind its token; the client gets
   usbd's buffers iff usbd succeeds and they fit the reply. A parcel that is too small, on either way,
   is reported as a write error, everything else by usbd's own code.
   */
  method RequestWait(w: Wait, connected: bool, room: nat, replyRoom: nat, usbd: Wait -> Answer)
    returns (code: Code, buffers: Buffers)
    ensures code ==
      if !connected then UecServiceInnerErr
      else if room < 1 then ErrEnoughData
      else if room < 1 + 3 then UecServiceWriteParcelError
      else if usbd(w).code != UecOk then usbd(w).code
      else if |EncodeBuffers(usbd(w).buffers)| > replyRoom then UecServiceWriteParcelError
      else UecOk
    ensures code == UecOk ==> buffers == KeptBuffers(usbd(w).buffers)
  {
    hide EncodeBuffer, DecodeBuffer, DecodeWait, KeptBuffers;
    buffers := Buffers([], []);
    if !connected {
      return UecServiceInnerErr, buffers;
    }
    var data := new MessageParcel(room);
    var reply := new MessageParcel(replyRoom);
    var ok := data.WriteInterfaceToken();
    if !ok {
      return ErrEnoughData, buffers;
    }
    code := WriteWait(data, w);
    if code != UecOk {
      return;
    }
    WaitRoundTrip(w, []);
    assert data.Unread()[1..] == EncodeWait(w) + [];
    code := CheckInterfaceToken(data);
    code := DoRequestWait(data, reply, usbd);
    if code != UecOk {
      return;
    }
    TransferBuffersRoundTrip(usbd(w).buffers, []);
    assert reply.Unread() == EncodeBuffers(usbd(w).buffers) + [];
    var clientData, bufferData;
    code, clientData := GetBufferMessage(reply);
    if code != UecOk {
      return;
    }
    code, bufferData := GetBufferMessage(reply);
    if code != UecOk {
      return;
    }
    buffers := Buffers(clientData, bufferData);
  }
}
