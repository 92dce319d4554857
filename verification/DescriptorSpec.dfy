/**
 What the descriptor parser computes on an arbitrary byte string, for every input.
 Where the source has no defined behaviour the outcome says so: it reads a structure that does not
 lie inside the buffer, or it loops without ever advancing.
 */
module DescriptorSpec {
  import opened Machine
  import opened DeviceTree

  // Descriptor types and sizes of USB 2.0, tables 9-5, 9-8, 9-10, 9-12 and 9-13.
  const TYPE_DEVICE: byte := 1
  const TYPE_CONFIG: byte := 2
  const TYPE_INTERFACE: byte := 4
  const TYPE_ENDPOINT: byte := 5
  const DEVICE_SIZE := 18
  const CONFIG_SIZE := 9
  const INTERFACE_SIZE := 9
  const ENDPOINT_SIZE := 7
  const HEADER_SIZE := 2

  datatype Hazard = ReadsOutside | NeverReturns

  /** A call that returned: its code, the object it filled, and the cursor it left. */
  datatype Outcome<+T> =
    | Returned(code: Code, value: T, used: nat)
    | Undefined(hazard: Hazard)

  datatype Scan =
    | Found(pos: nat)
    | Refused(pos: nat)
    | Lost(hazard: Hazard)

  /** The loop that skips descriptors until one of the wanted type. */
  function FindDescriptor(s: seq<byte>, kind: byte, cursor: nat): (r: Scan)
    ensures r.Found? ==> cursor <= r.pos && r.pos + HEADER_SIZE <= |s| && s[r.pos + 1] == kind
    ensures r.Refused? ==> cursor <= r.pos < |s|
    decreases |s| - cursor
  {
    if cursor >= |s| then Lost(ReadsOutside)
    else if HEADER_SIZE >= |s| then Refused(cursor)
    else if cursor + HEADER_SIZE > |s| then Lost(ReadsOutside)
    else if s[cursor] > |s| then Refused(cursor)
    else if s[cursor + 1] == kind then Found(cursor)
    else if s[cursor] == 0 then Lost(NeverReturns)
    else FindDescriptor(s, kind, cursor + s[cursor])
  }

  /** ParseEndpointDescriptor on the bytes from its buffer argument on. */
  function ParseEndpoint(s: seq<byte>): (r: Outcome<Endpoint>)
    ensures r.Returned? ==> r.used <= |s|
    ensures r.Returned? && r.code == UecOk ==> ENDPOINT_SIZE <= r.used
  {
    if |s| == 0 then Returned(UecServiceInvalidValue, DEFAULT_ENDPOINT, 0)
    else match FindDescriptor(s, TYPE_ENDPOINT, 0)
      case Lost(h) => Undefined(h)
      case Refused(p) => Returned(UecServiceInvalidValue, DEFAULT_ENDPOINT, p)
      case Found(p) =>
        if p + ENDPOINT_SIZE > |s| then Undefined(ReadsOutside)
        else if s[p] != ENDPOINT_SIZE then Returned(UecServiceInvalidValue, DEFAULT_ENDPOINT, p)
        else
          var ep := DEFAULT_ENDPOINT.(address := s[p + 2], attributes := s[p + 3],
                                      interval := s[p + 6], maxPacketSize := Word16(s[p + 4], s[p + 5]));
          Returned(UecOk, ep, p + ENDPOINT_SIZE)
  }

  /** The endpoint loop of an interface: n more endpoints, starting at cursor. */
  function ParseEndpoints(s: seq<byte>, n: nat, id: byte, cursor: nat, eps: seq<Endpoint>)
    : (r: Outcome<seq<Endpoint>>)
    requires cursor <= |s|
    ensures r.Returned? ==> r.code == UecOk && cursor <= r.used <= |s|
    ensures r.Returned? ==> |r.value| == |eps| + n && eps <= r.value
    ensures r.Returned? ==> forall k :: |eps| <= k < |r.value| ==> r.value[k].interfaceId == id
    decreases n
  {
    if n == 0 then Returned(UecOk, eps, cursor)
    else match ParseEndpoint(s[cursor..])
      case Undefined(h) => Undefined(h)
      case Returned(_, ep, used) =>
        ParseEndpoints(s, n - 1, id, cursor + used, eps + [ep.(interfaceId := id)])
  }

  /** ParseInterfaceDescriptor on the bytes from its buffer argument on. */
  function ParseInterface(s: seq<byte>): (r: Outcome<Interface>)
    ensures r.Returned? ==> r.used <= |s|
    ensures r.Returned? && r.code == UecOk ==> INTERFACE_SIZE <= r.used
    ensures r.Returned? && r.code != UecOk ==> r.value == DEFAULT_INTERFACE
    ensures r.Returned? ==> 0 <= r.value.id < 0x100 || r.value == DEFAULT_INTERFACE
    ensures r.Returned? ==> forall ep :: ep in r.value.endpoints ==> ep.interfaceId == r.value.id
    ensures r.Returned? ==> |r.value.endpoints| < 0x100
  {
    if |s| == 0 then Returned(UecServiceInvalidValue, DEFAULT_INTERFACE, 0)
    else match FindDescriptor(s, TYPE_INTERFACE, 0)
      case Lost(h) => Undefined(h)
      case Refused(p) => Returned(UecServiceInvalidValue, DEFAULT_INTERFACE, p)
      case Found(p) =>
        if p + INTERFACE_SIZE > |s| then Undefined(ReadsOutside)
        else if s[p] != INTERFACE_SIZE then Returned(UecServiceInvalidValue, DEFAULT_INTERFACE, p)
        else match ParseEndpoints(s, s[p + 4], s[p + 2], p + INTERFACE_SIZE, [])
          case Undefined(h) => Undefined(h)
          case Returned(_, eps, used) =>
            var itf := DEFAULT_INTERFACE.(
              id := s[p + 2], protocol := s[p + 7], alternateSetting := s[p + 3],
              klass := s[p + 5], subClass := s[p + 6], iInterface := s[p + 8], endpoints := eps);
            Returned(UecOk, itf, used)
  }

  /** The interface loop of a configuration, with its retry on an interface without endpoints. */
  function CollectInterfaces(s: seq<byte>, limit: byte, cursor: nat, found: seq<Interface>)
    : (r: Outcome<seq<Interface>>)
    requires cursor <= |s|
    ensures r.Returned? ==> r.code == UecOk && cursor <= r.used <= |s| && found <= r.value
    ensures r.Returned? ==> |r.value| >= limit || r.used == |s|
    ensures r.Returned? && |found| <= limit ==> |r.value| <= limit
    decreases |s| - cursor
  {
    if |found| >= limit || cursor >= |s| then Returned(UecOk, found, cursor)
    else match ParseInterface(s[cursor..])
      case Undefined(h) => Undefined(h)
      case Returned(_, itf, used) =>
        if used == 0 then Undefined(NeverReturns)
        else
          CollectInterfaces(s, limit, cursor + used, if |itf.endpoints| > 0 then found + [itf] else found)
  }

  /** ParseConfigDescriptor on the bytes from its buffer argument on. */
  function ParseConfig(s: seq<byte>): (r: Outcome<Config>)
    ensures r.Returned? ==> r.used <= |s|
    ensures r.Returned? && r.code == UecOk ==> CONFIG_SIZE <= r.used
  {
    if |s| < CONFIG_SIZE then Returned(UecServiceInvalidValue, DEFAULT_CONFIG, 0)
    else if s[0] != CONFIG_SIZE then Returned(UecServiceInvalidValue, DEFAULT_CONFIG, CONFIG_SIZE)
    else match CollectInterfaces(s, s[4], CONFIG_SIZE, [])
      case Undefined(h) => Undefined(h)
      case Returned(_, itfs, used) =>
        var config := DEFAULT_CONFIG.(id := s[5], attributes := s[7], maxPower := s[8],
                                      iConfiguration := s[6], interfaces := itfs);
        Returned(UecOk, config, used)
  }

  /** ParseDeviceDescriptor; the object is filled only when the descriptor is accepted. */
  function ParseDevice(s: seq<byte>, dev: Device): (r: (Code, Device))
    ensures r.0 == UecOk <==> |s| >= DEVICE_SIZE && s[0] == DEVICE_SIZE
    ensures r.0 != UecOk ==> r.1 == dev
  {
    if |s| < DEVICE_SIZE || s[0] != DEVICE_SIZE then (UecServiceInvalidValue, dev)
    else
      (UecOk,
       dev.(vendorId := Word16(s[8], s[9]), productId := Word16(s[10], s[11]), klass := s[4], subClass := s[5],
            descConfigCount := s[17], bMaxPacketSize0 := s[7], bcdDevice := Word16(s[12], s[13]),
            bcdUSB := Word16(s[2], s[3]), iManufacturer := s[14], iProduct := s[15], iSerialNumber := s[16]))
  }

  /** The driver loop over configurations: at most n more, from cursor on. */
  function ParseConfigs(s: seq<byte>, n: nat, cursor: nat, configs: seq<Config>): (r: Outcome<seq<Config>>)
    ensures r.Returned? && r.code == UecOk ==> configs <= r.value && |r.value| <= |configs| + n
    decreases n
  {
    if n == 0 || |s| <= cursor then Returned(UecOk, configs, cursor)
    else match ParseConfig(s[cursor..])
      case Undefined(h) => Undefined(h)
      case Returned(code, config, used) =>
        if code != UecOk then Returned(code, configs, cursor)
        else ParseConfigs(s, n - 1, cursor + used, configs + [config])
  }

  /** GetDescConfigCount returns its count as a bool, so the loop bound is 0 or 1. */
  function DescConfigCount(dev: Device): nat {
    if dev.descConfigCount == 0 then 0 else 1
  }
}
