/** The row of cells a device list becomes, what the other side makes of it, and the round trip. */
module DeviceCodec {
  import opened Machine
  import opened DeviceTree
  import opened Parcels
  import opened Slices

  // ---------------------------------------------------------------- writing

  /** GetMaxPower counts in units of 2 mA; the product is a 32-bit integer. */
  function GetMaxPower(c: Config): int32 {
    ToInt32(c.maxPower * 2)
  }

  function EncodeEndpoint(e: Endpoint): (r: seq<Cell>)
    ensures |r| == 4
  {
    [Word(e.address), Word(e.attributes), IntCell(e.interval), IntCell(e.maxPacketSize)]
  }

  function EncodeEndpoints(es: seq<Endpoint>): seq<Cell> {
    if es == [] then [] else EncodeEndpoint(es[0]) + EncodeEndpoints(es[1..])
  }

  function InterfaceCells(i: Interface): (r: seq<Cell>)
    ensures |r| == 8
  {
    [IntCell(i.id), IntCell(i.klass), IntCell(i.subClass), IntCell(i.alternateSetting), IntCell(i.protocol),
     Octet(i.iInterface), Str(i.name), IntCell(ToInt32(|i.endpoints|))]
  }

  function EncodeInterfaces(items: seq<Interface>): seq<Cell> {
    if items == [] then []
    else (InterfaceCells(items[0]) + EncodeEndpoints(items[0].endpoints)) + EncodeInterfaces(items[1..])
  }

  function ConfigCells(c: Config): (r: seq<Cell>)
    ensures |r| == 6
  {
    [IntCell(c.id), Word(c.attributes), IntCell(GetMaxPower(c)), Octet(c.iConfiguration), Str(c.name),
     Word(ToUint32(|c.interfaces|))]
  }

  function EncodeConfigs(cs: seq<Config>): seq<Cell> {
    if cs == [] then []
    else (ConfigCells(cs[0]) + EncodeInterfaces(cs[0].interfaces)) + EncodeConfigs(cs[1..])
  }

  function DeviceCells(d: Device): (r: seq<Cell>)
    ensures |r| == 19
  {
    [IntCell(d.busNum), IntCell(d.devAddr), IntCell(d.vendorId), IntCell(d.productId), IntCell(d.klass),
     IntCell(d.subClass), IntCell(d.protocol), Octet(d.iManufacturer), Octet(d.iProduct), Octet(d.iSerialNumber),
     Octet(d.bMaxPacketSize0), Half(d.bcdUSB), Half(d.bcdDevice), Str(d.name), Str(d.manufacturerName),
     Str(d.productName), Str(d.version), Str(d.serial), IntCell(ToInt32(|d.configs|))]
  }

  function EncodeDevice(d: Device): seq<Cell> {
    DeviceCells(d) + EncodeConfigs(d.configs)
  }

  function EncodeRun(ds: seq<Device>): seq<Cell> {
    if ds == [] then [] else EncodeDevice(ds[0]) + EncodeRun(ds[1..])
  }

  /** The devices that are written: as many as the length says when it is cut to a signed 32-bit count. */
  function Counted(ds: seq<Device>): (r: seq<Device>)
    ensures |ds| < COUNT_LIMIT ==> r == ds
  {
    ds[..Times(ToInt32(|ds|))]
  }

  function EncodeDevices(ds: seq<Device>): seq<Cell> {
    [IntCell(ToInt32(|ds|))] + EncodeRun(Counted(ds))
  }

  // The order of the fields in a row.

  lemma EndpointRow(e: Endpoint, more: seq<Endpoint>)
    ensures EncodeEndpoints([e] + more)
         == [Word(e.address), Word(e.attributes), IntCell(e.interval), IntCell(e.maxPacketSize)]
            + EncodeEndpoints(more)
  {
    hide IntCell;
    assert ([e] + more)[1..] == more;
  }

  lemma InterfaceRow(i: Interface, more: seq<Interface>)
    ensures EncodeInterfaces([i] + more)
         == [IntCell(i.id), IntCell(i.klass), IntCell(i.subClass), IntCell(i.alternateSetting), IntCell(i.protocol),
             Octet(i.iInterface), Str(i.name), IntCell(ToInt32(|i.endpoints|))]
            + EncodeEndpoints(i.endpoints) + EncodeInterfaces(more)
  {
    hide IntCell, EncodeEndpoints;
    assert ([i] + more)[1..] == more;
  }

  lemma ConfigRow(c: Config, more: seq<Config>)
    ensures EncodeConfigs([c] + more)
         == [IntCell(c.id), Word(c.attributes), IntCell(ToInt32(2 * c.maxPower)), Octet(c.iConfiguration),
             Str(c.name), Word(ToUint32(|c.interfaces|))]
            + EncodeInterfaces(c.interfaces) + EncodeConfigs(more)
  {
    hide IntCell, EncodeInterfaces;
    assert ([c] + more)[1..] == more;
  }

  lemma DeviceRow(d: Device)
    ensures EncodeDevice(d)
         == [IntCell(d.busNum), IntCell(d.devAddr), IntCell(d.vendorId), IntCell(d.productId), IntCell(d.klass),
             IntCell(d.subClass), IntCell(d.protocol), Octet(d.iManufacturer), Octet(d.iProduct),
             Octet(d.iSerialNumber), Octet(d.bMaxPacketSize0), Half(d.bcdUSB), Half(d.bcdDevice), Str(d.name),
             Str(d.manufacturerName), Str(d.productName), Str(d.version), Str(d.serial),
             IntCell(ToInt32(|d.configs|))]
            + EncodeConfigs(d.configs)
  {
    hide IntCell, EncodeConfigs;
  }

  // ---------------------------------------------------------------- reading

  /** A value and the cells left behind it, or a row that no writer produces. */
  datatype Parsed<+T> = Bad | Got(value: T, rest: seq<Cell>)

  function Times(count: int): nat {
    if count < 0 then 0 else count
  }

  predicate EndpointShape(s: seq<Cell>) {
    |s| >= 4 && s[0].Word? && s[1].Word? && s[2].Word? && s[3].Word?
  }

  function DecodeEndpointRun(s: seq<Cell>, n: nat, eps: seq<Endpoint>): Parsed<seq<Endpoint>>
    decreases n
  {
    if n == 0 then Got(eps, s)
    else if !EndpointShape(s) then Bad
    else
      var e := DEFAULT_ENDPOINT.(address := s[0].w, attributes := s[1].w,
                                 interval := ToInt32(s[2].w), maxPacketSize := ToInt32(s[3].w));
      DecodeEndpointRun(s[4..], n - 1, eps + [e])
  }

  function DecodeEndpoints(s: seq<Cell>): Parsed<seq<Endpoint>> {
    if s == [] || !s[0].Word? then Bad else DecodeEndpointRun(s[1..], Times(ToInt32(s[0].w)), [])
  }

  function Own(eps: seq<Endpoint>, id: int32): (r: seq<Endpoint>)
    ensures |r| == |eps| && forall k :: 0 <= k < |r| ==> r[k] == eps[k].(interfaceId := ToByte(id))
  {
    seq(|eps|, k requires 0 <= k < |eps| => eps[k].(interfaceId := ToByte(id)))
  }

  predicate InterfaceShape(s: seq<Cell>) {
    |s| >= 7 && s[0].Word? && s[1].Word? && s[2].Word? && s[3].Word? && s[4].Word? && s[5].Octet? && s[6].Str?
  }

  /** The interface made of its first seven cells and the endpoints read behind them. */
  function InterfaceRead(s: seq<Cell>, eps: seq<Endpoint>): Interface
    requires InterfaceShape(s)
  {
    var id := ToInt32(s[0].w);
    Interface(id, ToInt32(s[4].w), ToInt32(s[1].w), ToInt32(s[2].w), ToInt32(s[3].w), s[6].s, Own(eps, id), s[5].b)
  }

  function DecodeInterfaceRun(s: seq<Cell>, n: nat, items: seq<Interface>): Parsed<seq<Interface>>
    decreases n
  {
    if n == 0 then Got(items, s)
    else if !InterfaceShape(s) then Bad
    else match DecodeEndpoints(s[7..])
      case Bad => Bad
      case Got(eps, rest) =>
        DecodeInterfaceRun(rest, n - 1, items + [InterfaceRead(s, eps)])
  }

  function DecodeInterfaces(s: seq<Cell>): Parsed<seq<Interface>> {
    if s == [] || !s[0].Word? then Bad else DecodeInterfaceRun(s[1..], Times(ToInt32(s[0].w)), [])
  }

  predicate ConfigShape(s: seq<Cell>) {
    |s| >= 5 && s[0].Word? && s[1].Word? && s[2].Word? && s[3].Octet? && s[4].Str?
  }

  function DecodeConfigRun(s: seq<Cell>, n: nat, cs: seq<Config>): Parsed<seq<Config>>
    decreases n
  {
    if n == 0 then Got(cs, s)
    else if !ConfigShape(s) then Bad
    else match DecodeInterfaces(s[5..])
      case Bad => Bad
      case Got(items, rest) =>
        var c := Config(ToInt32(s[0].w), s[1].w, items, ToInt32(s[2].w), s[4].s, s[3].b);
        DecodeConfigRun(rest, n - 1, cs + [c])
  }

  function DecodeConfigs(s: seq<Cell>): Parsed<seq<Config>> {
    if s == [] || !s[0].Word? then Bad else DecodeConfigRun(s[1..], s[0].w, [])
  }

  predicate DeviceShape(s: seq<Cell>) {
    && |s| >= 18
    && s[0].Word? && s[1].Word? && s[2].Word? && s[3].Word? && s[4].Word? && s[5].Word? && s[6].Word?
    && s[7].Octet? && s[8].Octet? && s[9].Octet? && s[10].Octet? && s[11].Half? && s[12].Half?
    && s[13].Str? && s[14].Str? && s[15].Str? && s[16].Str? && s[17].Str?
  }

  /** The receiving object has its descConfigCount from the member initialiser. */
  function DecodeDevice(s: seq<Cell>): Parsed<Device> {
    if !DeviceShape(s) then Bad
    else match DecodeConfigs(s[18..])
      case Bad => Bad
      case Got(cs, rest) =>
        Got(Device(s[13].s, s[14].s, s[15].s, s[16].s, s[17].s,
                   ToByte(ToInt32(s[1].w)), ToByte(ToInt32(s[0].w)), UINT8_MAX, s[10].b, s[11].h, s[12].h,
                   s[7].b, s[8].b, s[9].b, ToInt32(s[2].w), ToInt32(s[3].w), ToInt32(s[4].w), ToInt32(s[5].w),
                   ToInt32(s[6].w), cs), rest)
  }

  function DecodeDeviceRun(s: seq<Cell>, n: nat, ds: seq<Device>): Parsed<seq<Device>>
    decreases n
  {
    if n == 0 then Got(ds, s)
    else match DecodeDevice(s)
      case Bad => Bad
      case Got(d, rest) => DecodeDeviceRun(rest, n - 1, ds + [d])
  }

  function DecodeDevices(s: seq<Cell>): Parsed<seq<Device>> {
    if s == [] || !s[0].Word? then Bad else DecodeDeviceRun(s[1..], Times(ToInt32(s[0].w)), [])
  }

  // ---------------------------------------------------------------- what arrives

  function InterfaceSeen(i: Interface): Interface {
    i.(endpoints := Own(i.endpoints, i.id))
  }

  function InterfacesSeen(items: seq<Interface>): (r: seq<Interface>)
    ensures |r| == |items| && forall k :: 0 <= k < |r| ==> r[k] == InterfaceSeen(items[k])
  {
    seq(|items|, k requires 0 <= k < |items| => InterfaceSeen(items[k]))
  }

  function ConfigSeen(c: Config): Config {
    c.(maxPower := GetMaxPower(c), interfaces := InterfacesSeen(c.interfaces))
  }

  function ConfigsSeen(cs: seq<Config>): (r: seq<Config>)
    ensures |r| == |cs| && forall k :: 0 <= k < |r| ==> r[k] == ConfigSeen(cs[k])
  {
    seq(|cs|, k requires 0 <= k < |cs| => ConfigSeen(cs[k]))
  }

  function DeviceSeen(d: Device): Device {
    d.(descConfigCount := UINT8_MAX, configs := ConfigsSeen(d.configs))
  }

  function DevicesSeen(ds: seq<Device>): (r: seq<Device>)
    ensures |r| == |ds| && forall k :: 0 <= k < |r| ==> r[k] == DeviceSeen(ds[k])
  {
    seq(|ds|, k requires 0 <= k < |ds| => DeviceSeen(ds[k]))
  }

  // Element counts travel as 32-bit signed integers.

  const COUNT_LIMIT := 0x8000_0000

  predicate SizedInterfaces(items: seq<Interface>) {
    |items| < COUNT_LIMIT && forall i :: i in items ==> |i.endpoints| < COUNT_LIMIT
  }

  predicate SizedConfigs(cs: seq<Config>) {
    |cs| < COUNT_LIMIT && forall c :: c in cs ==> SizedInterfaces(c.interfaces)
  }

  predicate SizedDevices(ds: seq<Device>) {
    |ds| < COUNT_LIMIT && forall d :: d in ds ==> SizedConfigs(d.configs)
  }

  // ---------------------------------------------------------------- round trips, level by level

  /** The first cells of a row, and what is left behind them. */
  lemma Front(a: seq<Cell>, b: seq<Cell>, c: seq<Cell>)
    ensures var s := (a + b) + c;
      |s| >= |a| && s[|a|..] == b + c && forall k :: 0 <= k < |a| ==> s[k] == a[k]
  {
  }

  lemma First(c: Cell, rest: seq<Cell>)
    ensures ([c] + rest)[0] == c && ([c] + rest)[1..] == rest
  {
  }

  lemma CountReadBack(n: nat)
    requires n < COUNT_LIMIT
    ensures ToInt32(ToUint32(ToInt32(n))) == n && ToUint32(ToInt32(n)) == n && ToInt32(ToUint32(n)) == n
  {
  }

  lemma EndpointRunDone(s: seq<Cell>, eps: seq<Endpoint>)
    ensures DecodeEndpointRun(s, 0, eps) == Got(eps, s)
  {
  }

  lemma InterfaceRunDone(s: seq<Cell>, items: seq<Interface>)
    ensures DecodeInterfaceRun(s, 0, items) == Got(items, s)
  {
  }

  lemma ConfigRunDone(s: seq<Cell>, cs: seq<Config>)
    ensures DecodeConfigRun(s, 0, cs) == Got(cs, s)
  {
  }

  lemma EndpointReadBack(e: Endpoint, s: seq<Cell>)
    requires |s| >= 4 && forall k :: 0 <= k < 4 ==> s[k] == EncodeEndpoint(e)[k]
    ensures s[0].Word? && s[1].Word? && s[2].Word? && s[3].Word?
    ensures s[0].w == e.address && s[1].w == e.attributes
    ensures ToInt32(s[2].w) == e.interval && ToInt32(s[3].w) == e.maxPacketSize
  {
  }

  /** The endpoints as read, before the reader gives them their interface id. */
  function Unowned(es: seq<Endpoint>): (r: seq<Endpoint>)
    ensures |r| == |es| && forall k :: 0 <= k < |r| ==> r[k] == es[k].(interfaceId := UINT8_MAX)
  {
    seq(|es|, k requires 0 <= k < |es| => es[k].(interfaceId := UINT8_MAX))
  }

  lemma {:induction false} EndpointRunRoundTrip(es: seq<Endpoint>, suffix: seq<Cell>, eps: seq<Endpoint>)
    ensures DecodeEndpointRun(EncodeEndpoints(es) + suffix, |es|, eps) == Got(eps + Unowned(es), suffix)
    decreases |es|
  {
    if es == [] {
      assert eps + Unowned(es) == eps;
      assert EncodeEndpoints(es) + suffix == suffix;
    } else {
      var e, more := es[0], es[1..];
      Front(EncodeEndpoint(e), EncodeEndpoints(more), suffix);
      var s := EncodeEndpoints(es) + suffix;
      EndpointReadBack(e, s);
      var first := e.(interfaceId := UINT8_MAX);
      EndpointRunRoundTrip(more, suffix, eps + [first]);
      assert (eps + [first]) + Unowned(more) == eps + Unowned(es);
    }
  }

  lemma EndpointsRoundTrip(es: seq<Endpoint>, suffix: seq<Cell>)
    requires |es| < COUNT_LIMIT
    ensures DecodeEndpoints([IntCell(ToInt32(|es|))] + (EncodeEndpoints(es) + suffix)) == Got(Unowned(es), suffix)
  {
    hide EncodeEndpoints, DecodeEndpointRun, Unowned, ToInt32, ToUint32;
    var s := [IntCell(ToInt32(|es|))] + (EncodeEndpoints(es) + suffix);
    CountReadBack(|es|);
    First(IntCell(ToInt32(|es|)), EncodeEndpoints(es) + suffix);
    EndpointRunRoundTrip(es, suffix, []);
    assert [] + Unowned(es) == Unowned(es);
  }

  lemma InterfaceReadBack(i: Interface, s: seq<Cell>)
    requires |s| >= 8 && forall k :: 0 <= k < 8 ==> s[k] == InterfaceCells(i)[k]
    ensures InterfaceShape(s)
    ensures ToInt32(s[0].w) == i.id && ToInt32(s[1].w) == i.klass && ToInt32(s[2].w) == i.subClass
    ensures ToInt32(s[3].w) == i.alternateSetting && ToInt32(s[4].w) == i.protocol
    ensures s[5].b == i.iInterface && s[6].s == i.name && s[7] == IntCell(ToInt32(|i.endpoints|))
  {
    IntReadBack(i.id);
    IntReadBack(i.klass);
    IntReadBack(i.subClass);
    IntReadBack(i.alternateSetting);
    IntReadBack(i.protocol);
  }

  lemma InterfaceStep(i: Interface, more: seq<Cell>, n: nat, items: seq<Interface>)
    requires |i.endpoints| < COUNT_LIMIT && n > 0
    ensures DecodeInterfaceRun((InterfaceCells(i) + EncodeEndpoints(i.endpoints)) + more, n, items)
         == DecodeInterfaceRun(more, n - 1, items + [InterfaceSeen(i)])
  {
    hide InterfaceCells, EncodeEndpoints, DecodeEndpoints, ToInt32, ToUint32;
    var es := i.endpoints;
    Front(InterfaceCells(i), EncodeEndpoints(es), more);
    var s := (InterfaceCells(i) + EncodeEndpoints(es)) + more;
    InterfaceReadBack(i, s);
    assert s[7..] == [IntCell(ToInt32(|es|))] + s[8..];
    EndpointsRoundTrip(es, more);
    assert Own(Unowned(es), i.id) == Own(es, i.id);
  }

  lemma {:induction false} InterfaceRunRoundTrip(items: seq<Interface>, suffix: seq<Cell>, done: seq<Interface>)
    requires SizedInterfaces(items)
    ensures DecodeInterfaceRun(EncodeInterfaces(items) + suffix, |items|, done)
         == Got(done + InterfacesSeen(items), suffix)
    decreases |items|
  {
    hide InterfaceCells, EncodeEndpoints, InterfaceSeen, DecodeInterfaceRun;
    if items == [] {
      InterfaceRunDone(suffix, done);
      assert done + InterfacesSeen(items) == done;
      assert EncodeInterfaces(items) + suffix == suffix;
    } else {
      var i, more := items[0], items[1..];
      assert i in items;
      Assoc(InterfaceCells(i) + EncodeEndpoints(i.endpoints), EncodeInterfaces(more), suffix);
      InterfaceStep(i, EncodeInterfaces(more) + suffix, |items|, done);
      InterfaceRunRoundTrip(more, suffix, done + [InterfaceSeen(i)]);
      assert (done + [InterfaceSeen(i)]) + InterfacesSeen(more) == done + InterfacesSeen(items);
    }
  }

  lemma InterfacesRoundTrip(items: seq<Interface>, suffix: seq<Cell>)
    requires SizedInterfaces(items)
    ensures DecodeInterfaces([Word(ToUint32(|items|))] + (EncodeInterfaces(items) + suffix))
         == Got(InterfacesSeen(items), suffix)
  {
    hide EncodeInterfaces, DecodeInterfaceRun, InterfacesSeen, ToInt32, ToUint32;
    var s := [Word(ToUint32(|items|))] + (EncodeInterfaces(items) + suffix);
    CountReadBack(|items|);
    First(Word(ToUint32(|items|)), EncodeInterfaces(items) + suffix);
    InterfaceRunRoundTrip(items, suffix, []);
    assert [] + InterfacesSeen(items) == InterfacesSeen(items);
  }

  lemma ConfigReadBack(c: Config, s: seq<Cell>)
    requires |s| >= 6 && forall k :: 0 <= k < 6 ==> s[k] == ConfigCells(c)[k]
    ensures ConfigShape(s)
    ensures ToInt32(s[0].w) == c.id && s[1].w == c.attributes && ToInt32(s[2].w) == GetMaxPower(c)
    ensures s[3].b == c.iConfiguration && s[4].s == c.name && s[5] == Word(ToUint32(|c.interfaces|))
  {
    hide ToInt32, ToUint32, GetMaxPower;
    IntReadBack(c.id);
    IntReadBack(GetMaxPower(c));
  }

  lemma ConfigStep(c: Config, more: seq<Cell>, n: nat, cs: seq<Config>)
    requires SizedInterfaces(c.interfaces) && n > 0
    ensures DecodeConfigRun((ConfigCells(c) + EncodeInterfaces(c.interfaces)) + more, n, cs)
         == DecodeConfigRun(more, n - 1, cs + [ConfigSeen(c)])
  {
    hide ConfigCells, EncodeInterfaces, DecodeInterfaces, InterfacesSeen, GetMaxPower, ToInt32, ToUint32, EncodeConfigs;
    var items := c.interfaces;
    Front(ConfigCells(c), EncodeInterfaces(items), more);
    var s := (ConfigCells(c) + EncodeInterfaces(items)) + more;
    ConfigReadBack(c, s);
    assert s[5..] == [Word(ToUint32(|items|))] + s[6..];
    InterfacesRoundTrip(items, more);
  }

  lemma {:induction false} ConfigRunRoundTrip(cs: seq<Config>, suffix: seq<Cell>, done: seq<Config>)
    requires SizedConfigs(cs)
    ensures DecodeConfigRun(EncodeConfigs(cs) + suffix, |cs|, done) == Got(done + ConfigsSeen(cs), suffix)
    decreases |cs|
  {
    hide ConfigCells, EncodeInterfaces, ConfigSeen, DecodeConfigRun;
    if cs == [] {
      ConfigRunDone(suffix, done);
      assert done + ConfigsSeen(cs) == done;
      assert EncodeConfigs(cs) + suffix == suffix;
    } else {
      var c, more := cs[0], cs[1..];
      assert c in cs;
      Assoc(ConfigCells(c) + EncodeInterfaces(c.interfaces), EncodeConfigs(more), suffix);
      ConfigStep(c, EncodeConfigs(more) + suffix, |cs|, done);
      ConfigRunRoundTrip(more, suffix, done + [ConfigSeen(c)]);
      assert (done + [ConfigSeen(c)]) + ConfigsSeen(more) == done + ConfigsSeen(cs);
    }
  }

  /** The configuration count is written signed and read unsigned. */
  lemma ConfigsRoundTrip(cs: seq<Config>, suffix: seq<Cell>)
    requires SizedConfigs(cs)
    ensures DecodeConfigs([IntCell(ToInt32(|cs|))] + (EncodeConfigs(cs) + suffix)) == Got(ConfigsSeen(cs), suffix)
  {
    hide EncodeConfigs, DecodeConfigRun, ConfigsSeen, ToInt32, ToUint32;
    var s := [IntCell(ToInt32(|cs|))] + (EncodeConfigs(cs) + suffix);
    CountReadBack(|cs|);
    First(IntCell(ToInt32(|cs|)), EncodeConfigs(cs) + suffix);
    ConfigRunRoundTrip(cs, suffix, []);
    assert [] + ConfigsSeen(cs) == ConfigsSeen(cs);
  }

  lemma DeviceNumberCells(d: Device)
    ensures |DeviceCells(d)| == 19
    ensures DeviceCells(d)[0] == IntCell(d.busNum) && DeviceCells(d)[1] == IntCell(d.devAddr)
    ensures DeviceCells(d)[2] == IntCell(d.vendorId) && DeviceCells(d)[3] == IntCell(d.productId)
    ensures DeviceCells(d)[4] == IntCell(d.klass) && DeviceCells(d)[5] == IntCell(d.subClass)
    ensures DeviceCells(d)[6] == IntCell(d.protocol)
  {
    hide IntCell;
  }

  lemma DeviceNumbersReadBack(d: Device, s: seq<Cell>)
    requires |s| >= 19 && forall k :: 0 <= k < 19 ==> s[k] == DeviceCells(d)[k]
    ensures s[0].Word? && s[1].Word? && s[2].Word? && s[3].Word? && s[4].Word? && s[5].Word? && s[6].Word?
    ensures ToByte(ToInt32(s[0].w)) == d.busNum && ToByte(ToInt32(s[1].w)) == d.devAddr
    ensures ToInt32(s[2].w) == d.vendorId && ToInt32(s[3].w) == d.productId && ToInt32(s[4].w) == d.klass
    ensures ToInt32(s[5].w) == d.subClass && ToInt32(s[6].w) == d.protocol
  {
    hide ToInt32, ToUint32, ToByte, DeviceCells;
    DeviceNumberCells(d);
    ByteReadBack(d.busNum);
    ByteReadBack(d.devAddr);
    IntReadBack(d.vendorId);
    IntReadBack(d.productId);
    IntReadBack(d.klass);
    IntReadBack(d.subClass);
    IntReadBack(d.protocol);
  }

  lemma DeviceReadBack(d: Device, s: seq<Cell>)
    requires |s| >= 19 && forall k :: 0 <= k < 19 ==> s[k] == DeviceCells(d)[k]
    ensures DeviceShape(s)
    ensures s[7].b == d.iManufacturer && s[8].b == d.iProduct && s[9].b == d.iSerialNumber
    ensures s[10].b == d.bMaxPacketSize0 && s[11].h == d.bcdUSB && s[12].h == d.bcdDevice
    ensures s[13].s == d.name && s[14].s == d.manufacturerName && s[15].s == d.productName
    ensures s[16].s == d.version && s[17].s == d.serial && s[18] == IntCell(ToInt32(|d.configs|))
  {
    hide ToInt32, ToUint32;
  }

  lemma DeviceRoundTrip(d: Device, suffix: seq<Cell>)
    requires SizedConfigs(d.configs)
    ensures DecodeDevice(EncodeDevice(d) + suffix) == Got(DeviceSeen(d), suffix)
  {
    hide DeviceCells, DecodeConfigs;
    var cs := d.configs;
    Front(DeviceCells(d), EncodeConfigs(cs), suffix);
    var s := (DeviceCells(d) + EncodeConfigs(cs)) + suffix;
    DeviceNumbersReadBack(d, s);
    DeviceReadBack(d, s);
    assert s[18..] == [IntCell(ToInt32(|cs|))] + s[19..];
    ConfigsRoundTrip(cs, suffix);
  }

  lemma {:induction false} DeviceRunRoundTrip(ds: seq<Device>, suffix: seq<Cell>, done: seq<Device>)
    requires SizedDevices(ds)
    ensures DecodeDeviceRun(EncodeRun(ds) + suffix, |ds|, done) == Got(done + DevicesSeen(ds), suffix)
    decreases |ds|
  {
    hide EncodeDevice, DecodeDevice, DeviceSeen;
    if ds == [] {
      assert done + DevicesSeen(ds) == done;
      assert EncodeRun(ds) + suffix == suffix;
    } else {
      var d, more := ds[0], ds[1..];
      assert d in ds;
      Assoc(EncodeDevice(d), EncodeRun(more), suffix);
      DeviceRoundTrip(d, EncodeRun(more) + suffix);
      DeviceRunRoundTrip(more, suffix, done + [DeviceSeen(d)]);
      assert (done + [DeviceSeen(d)]) + DevicesSeen(more) == done + DevicesSeen(ds);
    }
  }

  /**
   Main result. For device lists of any length and nesting, the reader takes back exactly the cells the
   writer appended, leaves every cell behind them, and returns the counted devices as DeviceSeen says;
   below 2^31 devices that is the whole list.
   */
  lemma DevicesRoundTrip(ds: seq<Device>, suffix: seq<Cell>)
    requires forall d :: d in ds ==> SizedConfigs(d.configs)
    ensures DecodeDevices(EncodeDevices(ds) + suffix) == Got(DevicesSeen(Counted(ds)), suffix)
    ensures |ds| < COUNT_LIMIT ==> DevicesSeen(Counted(ds)) == DevicesSeen(ds)
  {
    var count, sent := ToInt32(|ds|), Counted(ds);
    CountOfCounted(ds);
    IntReadBack(count);
    hide EncodeRun, DecodeDeviceRun, DevicesSeen, ToInt32, ToUint32, Counted, SizedConfigs;
    var s := EncodeDevices(ds) + suffix;
    Assoc([IntCell(count)], EncodeRun(sent), suffix);
    First(IntCell(count), EncodeRun(sent) + suffix);
    DeviceRunRoundTrip(sent, suffix, []);
    assert [] + DevicesSeen(sent) == DevicesSeen(sent);
  }

  lemma CountOfCounted(ds: seq<Device>)
    ensures |Counted(ds)| == Times(ToInt32(|ds|)) && forall d :: d in Counted(ds) ==> d in ds
    ensures |Counted(ds)| < COUNT_LIMIT
  {
  }

  /** No row of cells can be read as two lists: equal rows come from lists that look equal to the client. */
  lemma RowsAreUnambiguous(ds: seq<Device>, es: seq<Device>, s: seq<Cell>, t: seq<Cell>)
    requires SizedDevices(ds) && SizedDevices(es)
    requires EncodeDevices(ds) + s == EncodeDevices(es) + t
    ensures DevicesSeen(ds) == DevicesSeen(es) && s == t
  {
    DevicesRoundTrip(ds, s);
    DevicesRoundTrip(es, t);
  }

  // ---------------------------------------------------------------- what differs from what was sent

  /** The maximum power arrives doubled exactly while the product fits into 32 bits. */
  lemma MaxPowerDoubled(c: Config)
    ensures ConfigSeen(c).maxPower == 2 * c.maxPower <==> -0x4000_0000 <= c.maxPower < 0x4000_0000
  {
  }

  /** The interface id of an endpoint is rebuilt, not sent: nothing is lost iff it was the interface's own. */
  lemma InterfaceIdRecovered(i: Interface)
    ensures InterfaceSeen(i) == i <==> forall ep :: ep in i.endpoints ==> ep.interfaceId == ToByte(i.id)
  {
  }
}
