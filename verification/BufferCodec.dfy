/** Data buffers in a parcel: a 32-bit length, and that many bytes unless there are none. */
module BufferCodec {
  import opened Machine
  import opened Parcels
  import opened StubWriter

  /** The part of a buffer whose length fits 32 bits: all of it below 4 GB. */
  function Kept(data: seq<byte>): seq<byte> {
    data[..ToUint32(|data|)]
  }

  function EncodeBuffer(data: seq<byte>): seq<Cell> {
    [Word(|Kept(data)|)] + if Kept(data) == [] then [] else [Block(Kept(data))]
  }

  datatype BufferRead = Failed | Read(data: seq<byte>, rest: seq<Cell>)

  function DecodeBuffer(s: seq<Cell>): BufferRead {
    if s == [] || !s[0].Word? then Failed
    else if s[0].w == 0 then Read([], s[1..])
    else if |s| < 2 || !s[1].Block? || |s[1].bytes| != s[0].w then Failed
    else Read(s[1].bytes, s[2..])
  }

  method SetBufferMessage(data: MessageParcel, bufferData: seq<byte>) returns (code: Code)
    requires data.Valid()
    modifies data`cells
    ensures Written(old(data.cells), EncodeBuffer(bufferData), data, code)
  {
    var length := ToUint32(|bufferData|);
    ghost var block := if length == 0 then [] else [Block(bufferData[..length])];
    FillTwice(data.cells, [Word(length)], block, data.room);
    code := data.WriteRun([Word(length)]);
    if code != UecOk {
      return;
    }
    if length > 0 {
      code := data.WriteRun([Block(bufferData[..length])]);
    } else {
      FillNothing(data.cells, data.room);
    }
  }

  method GetBufferMessage(data: MessageParcel) returns (code: Code, bufferData: seq<byte>)
    requires data.Valid()
    modifies data`pos
    ensures data.Valid()
    ensures match DecodeBuffer(old(data.Unread()))
      case Failed => code == UecServiceReadParcelError && bufferData == []
      case Read(bytes, rest) => code == UecOk && bufferData == bytes && data.Unread() == rest
  {
    bufferData := [];
    var ok, dataSize := data.ReadUint32();
    if !ok {
      return UecServiceReadParcelError, bufferData;
    }
    if dataSize == 0 {
      return UecOk, bufferData;
    }
    var tdata;
    ok, tdata := data.ReadUnpadBuffer(dataSize);
    if !ok {
      return UecServiceReadParcelError, bufferData;
    }
    bufferData := tdata;
    code := UecOk;
  }

  /** A buffer comes back as far as it is kept, empty or not, and nothing behind it is read. */
  lemma BufferRoundTrip(data: seq<byte>, suffix: seq<Cell>)
    ensures DecodeBuffer(EncodeBuffer(data) + suffix) == Read(Kept(data), suffix)
    ensures Kept(data) == data <==> |data| < 0x1_0000_0000
  {
    hide Kept;
    KeptExact(data);
  }

  /** Reading succeeds on exactly the rows that begin with a written buffer. */
  lemma BufferReadExact(s: seq<Cell>, data: seq<byte>, rest: seq<Cell>)
    ensures DecodeBuffer(s) == Read(data, rest) <==> s == EncodeBuffer(data) + rest && |data| < 0x1_0000_0000
  {
    KeptExact(data);
    if s == EncodeBuffer(data) + rest && |data| < 0x1_0000_0000 {
      BufferRoundTrip(data, rest);
    }
  }

  /** One cell for a buffer of length 0 modulo 2^32, otherwise that length and so many bytes. */
  lemma BufferRow(data: seq<byte>)
    ensures var n := |data| % 0x1_0000_0000;
      EncodeBuffer(data) == if n == 0 then [Word(0)] else [Word(n), Block(data[..n])]
  {
  }

  lemma KeptExact(data: seq<byte>)
    ensures Kept(data) == data <==> |data| < 0x1_0000_0000
    ensures |Kept(data)| < 0x1_0000_0000
  {
  }

  /** Two buffers in a row, as in a transfer request, come back in order, and nothing more is read. */
  lemma BuffersRoundTrip(client: seq<byte>, buffer: seq<byte>, suffix: seq<Cell>)
    ensures var rest := EncodeBuffer(buffer) + suffix;
      && DecodeBuffer(EncodeBuffer(client) + rest) == Read(Kept(client), rest)
      && DecodeBuffer(rest) == Read(Kept(buffer), suffix)
  {
    BufferRoundTrip(client, EncodeBuffer(buffer) + suffix);
    BufferRoundTrip(buffer, suffix);
  }
}
