/**
 How USB 2.0 sections 9.6.1, 9.6.3, 9.6.5 and 9.6.6 lay a device out as bytes: an independent
 serializer over trees, with arbitrary other descriptors in between, and the device description such
 a tree stands for.
 */
module DescriptorLayout {
  import opened Machine
  import opened DeviceTree
  import opened DescriptorSpec

  /** A whole descriptor that is not interpreted: class specific, vendor specific, or skipped. */
  type Raw = seq<byte>

  datatype EndpointLayout = EndpointLayout(
    gap: seq<Raw>,
    bEndpointAddress: byte, bmAttributes: byte, wMaxPacketSize: uint16, bInterval: byte)

  datatype InterfaceLayout = InterfaceLayout(
    gap: seq<Raw>,
    bInterfaceNumber: byte, bAlternateSetting: byte,
    bInterfaceClass: byte, bInterfaceSubClass: byte, bInterfaceProtocol: byte, iInterface: byte,
    endpoints: seq<EndpointLayout>)

  datatype ConfigLayout = ConfigLayout(
    wTotalLength: uint16, bNumInterfaces: byte, bConfigurationValue: byte,
    iConfiguration: byte, bmAttributes: byte, bMaxPower: byte,
    interfaces: seq<InterfaceLayout>,
    tail: seq<Raw>)

  datatype DeviceLayout = DeviceLayout(
    bcdUSB: uint16, bDeviceClass: byte, bDeviceSubClass: byte, bDeviceProtocol: byte, bMaxPacketSize0: byte,
    idVendor: uint16, idProduct: uint16, bcdDevice: uint16,
    iManufacturer: byte, iProduct: byte, iSerialNumber: byte, bNumConfigurations: byte)

  // Well-formedness: bLength covers at least the header and says how long the descriptor is.

  predicate ValidRaw(d: Raw) {
    |d| >= 2 && d[0] == |d|
  }

  predicate ValidGap(ds: seq<Raw>, kind: byte) {
    forall d :: d in ds ==> ValidRaw(d) && d[1] != kind
  }

  predicate ValidInterface(i: InterfaceLayout) {
    && ValidGap(i.gap, TYPE_INTERFACE)
    && |i.endpoints| < 0x100
    && forall e :: e in i.endpoints ==> ValidGap(e.gap, TYPE_ENDPOINT)
  }

  predicate ValidConfig(c: ConfigLayout) {
    && (forall i :: i in c.interfaces ==> ValidInterface(i))
    && ValidGap(c.tail, TYPE_INTERFACE)
  }

  // The serializer.

  function Flatten(ds: seq<Raw>): seq<byte> {
    if ds == [] then [] else ds[0] + Flatten(ds[1..])
  }

  function EndpointBytes(e: EndpointLayout): (r: seq<byte>)
    ensures |r| == ENDPOINT_SIZE
  {
    [7, 5, e.bEndpointAddress, e.bmAttributes,
     LowByte(e.wMaxPacketSize), HighByte(e.wMaxPacketSize), e.bInterval]
  }

  function SerializeEndpoints(es: seq<EndpointLayout>): seq<byte> {
    if es == [] then [] else Flatten(es[0].gap) + EndpointBytes(es[0]) + SerializeEndpoints(es[1..])
  }

  function InterfaceBytes(i: InterfaceLayout): (r: seq<byte>)
    requires |i.endpoints| < 0x100
    ensures |r| == INTERFACE_SIZE
  {
    [9, 4, i.bInterfaceNumber, i.bAlternateSetting, |i.endpoints|,
     i.bInterfaceClass, i.bInterfaceSubClass, i.bInterfaceProtocol, i.iInterface]
  }

  function SerializeInterface(i: InterfaceLayout): (r: seq<byte>)
    requires ValidInterface(i)
    ensures |r| >= INTERFACE_SIZE
  {
    Flatten(i.gap) + InterfaceBytes(i) + SerializeEndpoints(i.endpoints)
  }

  function SerializeInterfaces(items: seq<InterfaceLayout>): seq<byte>
    requires forall i :: i in items ==> ValidInterface(i)
  {
    if items == [] then [] else SerializeInterface(items[0]) + SerializeInterfaces(items[1..])
  }

  function ConfigBytes(c: ConfigLayout): (r: seq<byte>)
    ensures |r| == CONFIG_SIZE
  {
    [9, 2, LowByte(c.wTotalLength), HighByte(c.wTotalLength), c.bNumInterfaces,
     c.bConfigurationValue, c.iConfiguration, c.bmAttributes, c.bMaxPower]
  }

  function SerializeConfig(c: ConfigLayout): seq<byte>
    requires ValidConfig(c)
  {
    ConfigBytes(c) + SerializeInterfaces(c.interfaces) + Flatten(c.tail)
  }

  function SerializeConfigs(cs: seq<ConfigLayout>): seq<byte>
    requires forall c :: c in cs ==> ValidConfig(c)
  {
    if cs == [] then [] else SerializeConfig(cs[0]) + SerializeConfigs(cs[1..])
  }

  function DeviceBytes(d: DeviceLayout): (r: seq<byte>)
    ensures |r| == DEVICE_SIZE
  {
    [18, 1, LowByte(d.bcdUSB), HighByte(d.bcdUSB),
     d.bDeviceClass, d.bDeviceSubClass, d.bDeviceProtocol, d.bMaxPacketSize0,
     LowByte(d.idVendor), HighByte(d.idVendor), LowByte(d.idProduct), HighByte(d.idProduct),
     LowByte(d.bcdDevice), HighByte(d.bcdDevice),
     d.iManufacturer, d.iProduct, d.iSerialNumber, d.bNumConfigurations]
  }

  // The offsets of USB 2.0, tables 9-13, 9-12, 9-10 and 9-8; two-byte fields have their low byte first.

  lemma EndpointOffsets(e: EndpointLayout)
    ensures var r := EndpointBytes(e);
      && |r| == 7 && r[0] == 7 && r[1] == 5 && r[2] == e.bEndpointAddress && r[3] == e.bmAttributes
      && r[4] + 0x100 * (r[5] as int) == e.wMaxPacketSize && r[6] == e.bInterval
  {
  }

  lemma InterfaceOffsets(i: InterfaceLayout)
    requires |i.endpoints| < 0x100
    ensures var r := InterfaceBytes(i);
      && |r| == 9 && r[0] == 9 && r[1] == 4 && r[2] == i.bInterfaceNumber && r[3] == i.bAlternateSetting
      && r[4] == |i.endpoints| && r[5] == i.bInterfaceClass && r[6] == i.bInterfaceSubClass
      && r[7] == i.bInterfaceProtocol && r[8] == i.iInterface
  {
  }

  lemma ConfigOffsets(c: ConfigLayout)
    ensures var r := ConfigBytes(c);
      && |r| == 9 && r[0] == 9 && r[1] == 2 && r[2] + 0x100 * (r[3] as int) == c.wTotalLength
      && r[4] == c.bNumInterfaces && r[5] == c.bConfigurationValue && r[6] == c.iConfiguration
      && r[7] == c.bmAttributes && r[8] == c.bMaxPower
  {
  }

  lemma DeviceOffsets(d: DeviceLayout)
    ensures var r := DeviceBytes(d);
      && |r| == 18 && r[0] == 18 && r[1] == 1 && r[2] + 0x100 * (r[3] as int) == d.bcdUSB && r[4] == d.bDeviceClass
      && r[5] == d.bDeviceSubClass && r[6] == d.bDeviceProtocol && r[7] == d.bMaxPacketSize0
      && r[8] + 0x100 * (r[9] as int) == d.idVendor && r[10] + 0x100 * (r[11] as int) == d.idProduct
      && r[12] + 0x100 * (r[13] as int) == d.bcdDevice && r[14] == d.iManufacturer && r[15] == d.iProduct
      && r[16] == d.iSerialNumber && r[17] == d.bNumConfigurations
  {
  }

  // The tree a layout stands for.

  function EndpointOf(e: EndpointLayout, id: byte): Endpoint {
    Endpoint(e.bEndpointAddress, e.bmAttributes, e.bInterval, e.wMaxPacketSize, id)
  }

  function EndpointsOf(es: seq<EndpointLayout>, id: byte): (r: seq<Endpoint>)
    ensures |r| == |es| && forall k :: 0 <= k < |es| ==> r[k] == EndpointOf(es[k], id)
  {
    seq(|es|, k requires 0 <= k < |es| => EndpointOf(es[k], id))
  }

  function InterfaceOf(i: InterfaceLayout): (r: Interface)
    ensures |r.endpoints| == |i.endpoints|
  {
    Interface(i.bInterfaceNumber, i.bInterfaceProtocol, i.bInterfaceClass, i.bInterfaceSubClass,
              i.bAlternateSetting, "", EndpointsOf(i.endpoints, i.bInterfaceNumber), i.iInterface)
  }

  /** The interface descriptors that have endpoints, in stream order; alternate settings count. */
  function Usable(items: seq<InterfaceLayout>): seq<Interface> {
    if items == [] then []
    else if items[0].endpoints == [] then Usable(items[1..])
    else [InterfaceOf(items[0])] + Usable(items[1..])
  }

  function Take<T>(xs: seq<T>, n: nat): seq<T> {
    if |xs| <= n then xs else xs[..n]
  }

  /** The configuration whose interfaces are the first bNumInterfaces usable ones. */
  function ConfigOf(c: ConfigLayout): Config {
    Config(c.bConfigurationValue, c.bmAttributes, Take(Usable(c.interfaces), c.bNumInterfaces),
           c.bMaxPower, "", c.iConfiguration)
  }

  /** Whether a configuration has as many usable interfaces as it announces. */
  predicate Complete(c: ConfigLayout) {
    |Usable(c.interfaces)| >= c.bNumInterfaces
  }
}
