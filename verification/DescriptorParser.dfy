/**
 The parser in the source's form: a byte buffer, 32-bit cursors, and loops. A pointer into the buffer
 is an offset `at`; `length` is what remains behind it. Every callee is entered with cursor 0, as in
 the source, and reports the cursor it leaves. Where the source would read outside the buffer or spin
 on an unchanged cursor, the method reports that instead. The scan for a descriptor type and the loops
 over endpoints and interfaces, which the source writes in place, are methods of their own.
 */
module DescriptorParser {
  import opened Machine
  import opened DeviceTree
  import opened DescriptorSpec

  // Below this length a cursor advanced by one bLength cannot wrap around.
  const MAX_LENGTH: nat := 0xFFFF_FF00

  /** The arguments of one call: a null pointer, whatever the length, or what is left of a buffer. */
  predicate Window(buffer: array?<byte>, at: nat, length: uint32) {
    buffer != null ==> at + length == buffer.Length <= MAX_LENGTH
  }

  /** The bytes a call may look at. */
  function Behind(buffer: array?<byte>, at: nat): seq<byte>
    requires buffer != null ==> at <= buffer.Length
    reads buffer
  {
    if buffer == null then [] else buffer[at..]
  }

  method ScanFor(buffer: array<byte>, at: nat, length: uint32, kind: byte) returns (r: Scan)
    requires Window(buffer, at, length)
    ensures r == FindDescriptor(buffer[at..], kind, 0)
  {
    ghost var s := buffer[at..];
    var cursor: uint32 := 0;
    while cursor < length
      invariant FindDescriptor(s, kind, cursor) == FindDescriptor(s, kind, 0)
      invariant cursor < length + 0x100
    {
      if HEADER_SIZE >= length {
        return Scan.Refused(cursor);
      }
      if cursor + HEADER_SIZE > length {
        return Lost(ReadsOutside);
      }
      var bLength, bDescriptorType := buffer[at + cursor], buffer[at + cursor + 1];
      if bLength > length {
        return Scan.Refused(cursor);
      }
      if bDescriptorType == kind {
        return Found(cursor);
      }
      if bLength == 0 {
        return Lost(NeverReturns);
      }
      cursor := cursor + bLength;
    }
    r := Lost(ReadsOutside);
  }

  method ParseEndpointDescriptor(buffer: array?<byte>, at: nat, length: uint32) returns (r: Outcome<Endpoint>)
    requires Window(buffer, at, length)
    ensures r == ParseEndpoint(Behind(buffer, at))
  {
    hide FindDescriptor;
    var ep := DEFAULT_ENDPOINT;
    if buffer == null || length == 0 {
      return Returned(UecServiceInvalidValue, ep, 0);
    }
    var scan := ScanFor(buffer, at, length, TYPE_ENDPOINT);
    if scan.Lost? {
      return Undefined(scan.hazard);
    }
    var cursor: uint32 := scan.pos;
    if scan.Refused? {
      return Returned(UecServiceInvalidValue, ep, cursor);
    }
    if cursor + ENDPOINT_SIZE > length {
      return Undefined(ReadsOutside);
    }
    var p := at + cursor;
    if buffer[p] != ENDPOINT_SIZE {
      return Returned(UecServiceInvalidValue, ep, cursor);
    }
    cursor := cursor + buffer[p];
    ep := ep.(address := buffer[p + 2]);
    ep := ep.(attributes := buffer[p + 3]);
    ep := ep.(interval := buffer[p + 6]);
    ep := ep.(maxPacketSize := Word16(buffer[p + 4], buffer[p + 5]));
    r := Returned(UecOk, ep, cursor);
  }

  /** The endpoint loop of ParseInterfaceDescriptor, from its cursor on; the codes of its calls are ignored. */
  method CollectEndpoints(buffer: array<byte>, at: nat, length: uint32, from: uint32, count: byte, id: byte)
    returns (r: Outcome<seq<Endpoint>>)
    requires Window(buffer, at, length) && from <= length
    ensures r == ParseEndpoints(buffer[at..], count, id, from, [])
  {
    hide ParseEndpoint;
    ghost var s := buffer[at..];
    ghost var left: nat := count;
    var eps: seq<Endpoint> := [];
    var cursor: uint32 := from;
    for j := 0 to count
      invariant cursor <= length && left == count - j
      invariant ParseEndpoints(s, left, id, cursor, eps) == ParseEndpoints(s, count, id, from, [])
    {
      assert s[cursor..] == buffer[at + cursor..];
      var e := ParseEndpointDescriptor(buffer, at + cursor, length - cursor);
      if e.Undefined? {
        return Undefined(e.hazard);
      }
      var ep := e.value.(interfaceId := id);
      eps := eps + [ep];
      cursor := cursor + e.used;
      left := left - 1;
    }
    r := Returned(UecOk, eps, cursor);
  }

  method ParseInterfaceDescriptor(buffer: array?<byte>, at: nat, length: uint32) returns (r: Outcome<Interface>)
    requires Window(buffer, at, length)
    ensures r == ParseInterface(Behind(buffer, at))
  {
    hide FindDescriptor, ParseEndpoints;
    var itf := DEFAULT_INTERFACE;
    if buffer == null || length == 0 {
      return Returned(UecServiceInvalidValue, itf, 0);
    }
    var scan := ScanFor(buffer, at, length, TYPE_INTERFACE);
    if scan.Lost? {
      return Undefined(scan.hazard);
    }
    var cursor: uint32 := scan.pos;
    if scan.Refused? {
      return Returned(UecServiceInvalidValue, itf, cursor);
    }
    if cursor + INTERFACE_SIZE > length {
      return Undefined(ReadsOutside);
    }
    var p := at + cursor;
    if buffer[p] != INTERFACE_SIZE {
      return Returned(UecServiceInvalidValue, itf, cursor);
    }
    cursor := cursor + buffer[p];
    itf := itf.(id := buffer[p + 2]);
    itf := itf.(protocol := buffer[p + 7]);
    itf := itf.(alternateSetting := buffer[p + 3]);
    itf := itf.(klass := buffer[p + 5]);
    itf := itf.(subClass := buffer[p + 6]);
    itf := itf.(iInterface := buffer[p + 8]);

    var eps := CollectEndpoints(buffer, at, length, cursor, buffer[p + 4], buffer[p + 2]);
    if eps.Undefined? {
      return Undefined(eps.hazard);
    }
    itf := itf.(endpoints := eps.value);
    r := Returned(UecOk, itf, eps.used);
  }

  /** The interface loop of ParseConfigDescriptor, from its cursor on; the index moves back on a retry. */
  method RetryInterfaces(buffer: array<byte>, at: nat, length: uint32, from: uint32, bNumInterfaces: byte)
    returns (r: Outcome<seq<Interface>>)
    requires Window(buffer, at, length) && from <= length
    ensures r == CollectInterfaces(buffer[at..], bNumInterfaces, from, [])
  {
    hide ParseInterface;
    ghost var s := buffer[at..];
    var interfaces: seq<Interface> := [];
    var cursor: uint32 := from;
    var i: int32 := 0;
    while i < bNumInterfaces && cursor < length
      invariant i == |interfaces| && cursor <= length
      invariant CollectInterfaces(s, bNumInterfaces, cursor, interfaces)
             == CollectInterfaces(s, bNumInterfaces, from, [])
      decreases length - cursor
    {
      assert s[cursor..] == buffer[at + cursor..];
      var e := ParseInterfaceDescriptor(buffer, at + cursor, length - cursor);
      if e.Undefined? {
        return Undefined(e.hazard);
      }
      if |e.value.endpoints| > 0 {
        interfaces := interfaces + [e.value];
      } else {
        i := i - 1;  // retry
      }
      if e.used == 0 {
        return Undefined(NeverReturns);
      }
      cursor := cursor + e.used;
      i := i + 1;
    }
    r := Returned(UecOk, interfaces, cursor);
  }

  method ParseConfigDescriptor(buffer: array?<byte>, at: nat, length: uint32) returns (r: Outcome<Config>)
    requires Window(buffer, at, length)
    ensures r == ParseConfig(Behind(buffer, at))
  {
    hide CollectInterfaces;
    var config := DEFAULT_CONFIG;
    var cursor: uint32 := 0;
    if buffer == null || length == 0 || length < CONFIG_SIZE {
      return Returned(UecServiceInvalidValue, config, cursor);
    }
    cursor := cursor + CONFIG_SIZE;
    if buffer[at] != CONFIG_SIZE {
      return Returned(UecServiceInvalidValue, config, cursor);
    }
    config := config.(id := buffer[at + 5]);
    config := config.(attributes := buffer[at + 7]);
    config := config.(maxPower := buffer[at + 8]);
    config := config.(iConfiguration := buffer[at + 6]);

    var interfaces := RetryInterfaces(buffer, at, length, cursor, buffer[at + 4]);
    if interfaces.Undefined? {
      return Undefined(interfaces.hazard);
    }
    config := config.(interfaces := interfaces.value);
    r := Returned(UecOk, config, interfaces.used);
  }

  method ParseDeviceDescriptor(buffer: array?<byte>, length: uint32, dev: Device)
    returns (code: Code, d: Device)
    requires buffer != null ==> length == buffer.Length
    ensures (code, d) == ParseDevice(Behind(buffer, 0), dev)
  {
    d := dev;
    if buffer == null || length == 0 || length < DEVICE_SIZE {
      return UecServiceInvalidValue, d;
    }
    if buffer[0] != DEVICE_SIZE {
      return UecServiceInvalidValue, d;
    }
    d := d.(vendorId := Word16(buffer[8], buffer[9]));
    d := d.(productId := Word16(buffer[10], buffer[11]));
    d := d.(klass := buffer[4]);
    d := d.(subClass := buffer[5]);
    d := d.(descConfigCount := buffer[17]);
    d := d.(bMaxPacketSize0 := buffer[7]);
    d := d.(bcdDevice := Word16(buffer[12], buffer[13]));
    d := d.(bcdUSB := Word16(buffer[2], buffer[3]));
    d := d.(iManufacturer := buffer[14]);
    d := d.(iProduct := buffer[15]);
    d := d.(iSerialNumber := buffer[16]);
    code := UecOk;
  }
}
