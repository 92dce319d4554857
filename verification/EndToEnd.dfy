/**
 From the bytes a device sends to the description a client receives, and from a run of the service to
 the list a client receives.
 */
module EndToEnd {
  import opened Machine
  import opened DeviceTree
  import opened Text
  import opened DescriptorSpec
  import opened DescriptorLayout
  import opened DescriptorTheorems
  import opened DeviceStrings
  import opened DeviceInfo
  import opened Parcels
  import opened DeviceCodec
  import opened StubWriter
  import opened ProxyReader
  import opened Service
  import opened KeyOrder
  import Host = HostManager

  // ---------------------------------------------------------------- what the client should see

  /** A configuration straight from its layout: the power in mA, the names from the string table. */
  function ClientConfig(c: ConfigLayout, table: StringTable): Config {
    Config(c.bConfigurationValue, c.bmAttributes,
           NameInterfaces(Take(Usable(c.interfaces), c.bNumInterfaces), table),
           2 * c.bMaxPower, StringAt(c.iConfiguration, table), c.iConfiguration)
  }

  /** A device straight from its layout. Its protocol is not looked at, and its count does not travel. */
  function ClientDevice(d: DeviceLayout, configs: seq<Config>, bus: byte, addr: byte, table: StringTable): Device {
    Device(DeviceName(bus, addr), StringAt(d.iManufacturer, table), StringAt(d.iProduct, table),
           VersionOf(d.bcdDevice), StringAt(d.iSerialNumber, table), addr, bus, 255, d.bMaxPacketSize0,
           d.bcdUSB, d.bcdDevice, d.iManufacturer, d.iProduct, d.iSerialNumber,
           d.idVendor, d.idProduct, d.bDeviceClass, d.bDeviceSubClass, 0, configs)
  }

  /** The one configuration that is looked at, if any: all layouts read as one stream. */
  function ClientConfigs(d: DeviceLayout, cs: seq<ConfigLayout>, table: StringTable): seq<Config>
    requires forall c :: c in cs ==> ValidConfig(c)
  {
    if cs == [] || d.bNumConfigurations == 0 then [] else [ClientConfig(MergeAll(cs), table)]
  }

  /** The parser has a defined result on these configurations. */
  predicate Readable(d: DeviceLayout, cs: seq<ConfigLayout>)
    requires forall c :: c in cs ==> ValidConfig(c)
  {
    cs == [] || d.bNumConfigurations == 0 || Complete(MergeAll(cs)) || MergeAll(cs).tail == []
  }

  // ---------------------------------------------------------------- bytes to description

  /** The description before naming, of a device whose raw descriptor is as laid out. */
  function ParsedDevice(d: DeviceLayout, bus: byte, addr: byte): Device {
    CLEARED_DEVICE.(
      busNum := bus, devAddr := addr, name := DeviceName(bus, addr),
      vendorId := d.idVendor, productId := d.idProduct, klass := d.bDeviceClass,
      subClass := d.bDeviceSubClass, descConfigCount := d.bNumConfigurations,
      bMaxPacketSize0 := d.bMaxPacketSize0, bcdDevice := d.bcdDevice, bcdUSB := d.bcdUSB,
      iManufacturer := d.iManufacturer, iProduct := d.iProduct, iSerialNumber := d.iSerialNumber)
  }

  function ParsedConfigs(d: DeviceLayout, cs: seq<ConfigLayout>): seq<Config>
    requires forall c :: c in cs ==> ValidConfig(c)
  {
    if cs == [] || d.bNumConfigurations == 0 then [] else [ConfigOf(MergeAll(cs))]
  }

  lemma DeviceBytesFirst(d: DeviceLayout, rest: seq<byte>)
    ensures (DeviceBytes(d) + rest)[DEVICE_SIZE..] == rest
  {
  }

  lemma ConfigsNonEmpty(cs: seq<ConfigLayout>)
    requires forall c :: c in cs ==> ValidConfig(c)
    ensures SerializeConfigs(cs) == [] <==> cs == []
  {
  }

  /** The driver loop on a laid-out raw descriptor: one configuration, or none, or no defined result. */
  lemma DriverLoopExact(d: DeviceLayout, cs: seq<ConfigLayout>, n: nat)
    requires forall c :: c in cs ==> ValidConfig(c)
    requires n == if d.bNumConfigurations == 0 then 0 else 1
    ensures var r := ParseConfigs(DeviceBytes(d) + SerializeConfigs(cs), n, CURSOR_INIT, []);
      if Readable(d, cs) then r.Returned? && r.code == UecOk && r.value == ParsedConfigs(d, cs)
      else r == Undefined(TailHazard(MergeAll(cs).tail))
  {
    hide DeviceBytes, SerializeConfigs, ParseConfig, MergeAll, ConfigOf, Complete, TailHazard;
    var s := DeviceBytes(d) + SerializeConfigs(cs);
    DeviceBytesFirst(d, SerializeConfigs(cs));
    ConfigsNonEmpty(cs);
    if cs != [] && n == 1 {
      FirstConfigurationExact(cs);
      assert [] + [ConfigOf(MergeAll(cs))] == [ConfigOf(MergeAll(cs))];
    }
  }

  /** Whatever is laid out is described exactly if the parser has a defined result, and then as laid out. */
  lemma DescribeLaidOut(d: DeviceLayout, cs: seq<ConfigLayout>, bus: byte, addr: byte, u: Usbd)
    requires forall c :: c in cs ==> ValidConfig(c)
    requires u.openCode == UecOk && u.rawCode == UecOk && u.raw == DeviceBytes(d) + SerializeConfigs(cs)
    ensures !Readable(d, cs) ==> Describe(bus, addr, u) == Broken(TailHazard(MergeAll(cs).tail))
    ensures Readable(d, cs) ==>
      (Describe(bus, addr, u)
       == Known(NameDevice(ParsedDevice(d, bus, addr).(configs := ParsedConfigs(d, cs)), u.strings)))
  {
    hide DeviceBytes, SerializeConfigs, ParseDevice, ParseConfigs, Readable, NameDevice, MergeAll, DeviceName,
      TailHazard;
    ParseDeviceInverts(d, SerializeConfigs(cs),
                       CLEARED_DEVICE.(busNum := bus, devAddr := addr, name := DeviceName(bus, addr)));
    assert u.raw != [];
    var dev := DescribeDevice(bus, addr, u);
    assert dev == ParsedDevice(d, bus, addr);
    DriverLoopExact(d, cs, DescConfigCount(dev));
  }

  // ---------------------------------------------------------------- description to client

  lemma SeenConfig(c: ConfigLayout, table: StringTable)
    ensures ConfigSeen(NameConfig(ConfigOf(c), table)) == ClientConfig(c, table)
  {
    hide StringAt;
    UsableOwned(c.interfaces);
    hide Usable;
    var items := Take(Usable(c.interfaces), c.bNumInterfaces);
    var named := NameInterfaces(items, table);
    forall k | 0 <= k < |items| ensures InterfaceSeen(named[k]) == named[k] {
      assert items[k] in Usable(c.interfaces);
      assert Own(items[k].endpoints, items[k].id) == items[k].endpoints;
    }
    assert InterfacesSeen(named) == named;
  }

  /** Laid-out endpoints carry the number of their interface. */
  lemma {:induction false} UsableOwned(items: seq<InterfaceLayout>)
    ensures forall i :: i in Usable(items) ==>
      forall k :: 0 <= k < |i.endpoints| ==> i.endpoints[k].interfaceId == ToByte(i.id)
    decreases |items|
  {
    if items != [] {
      UsableOwned(items[1..]);
    }
  }

  lemma SeenDevice(d: DeviceLayout, cs: seq<ConfigLayout>, bus: byte, addr: byte, table: StringTable)
    requires forall c :: c in cs ==> ValidConfig(c)
    ensures DeviceSeen(NameDevice(ParsedDevice(d, bus, addr).(configs := ParsedConfigs(d, cs)), table))
         == ClientDevice(d, ClientConfigs(d, cs, table), bus, addr, table)
  {
    hide StringAt, VersionOf, DeviceName, MergeAll, ConfigOf, ConfigSeen, ClientConfig, NameConfig;
    var named := NameDevice(ParsedDevice(d, bus, addr).(configs := ParsedConfigs(d, cs)), table);
    if cs != [] && d.bNumConfigurations != 0 {
      SeenConfig(MergeAll(cs), table);
      assert named.configs == [NameConfig(ConfigOf(MergeAll(cs)), table)];
      assert ConfigsSeen(named.configs) == [ClientConfig(MergeAll(cs), table)];
    } else {
      assert ConfigsSeen(named.configs) == [];
    }
  }

  lemma SoundIsSized(d: Device)
    requires Sound(d)
    ensures SizedConfigs(d.configs)
  {
  }

  /**
   End to end. For every device and any number of configurations laid out with any other descriptors in
   between: the service describes it iff the parser has a defined result, and then a client that reads
   the parcel, whatever else follows in it, gets the device as laid out. Otherwise what follows the last
   interface says what goes wrong.
   */
  lemma BytesToClient(d: DeviceLayout, cs: seq<ConfigLayout>, bus: byte, addr: byte, u: Usbd, suffix: seq<Cell>)
    requires forall c :: c in cs ==> ValidConfig(c)
    requires u.openCode == UecOk && u.rawCode == UecOk && u.raw == DeviceBytes(d) + SerializeConfigs(cs)
    ensures Describe(bus, addr, u).Known? <==> Readable(d, cs)
    ensures !Readable(d, cs) ==> Describe(bus, addr, u) == Broken(TailHazard(MergeAll(cs).tail))
    ensures Readable(d, cs) ==>
      DecodeDevices(EncodeDevices([Describe(bus, addr, u).device]) + suffix)
      == Got([ClientDevice(d, ClientConfigs(d, cs, u.strings), bus, addr, u.strings)], suffix)
  {
    hide Describe, DecodeDevices, EncodeDevices, ClientDevice, DeviceSeen, Sound, SizedConfigs, DeviceBytes,
      SerializeConfigs, Readable, ParsedDevice, NameDevice, ClientConfigs, ParsedConfigs, TailHazard;
    DescribeLaidOut(d, cs, bus, addr, u);
    if Readable(d, cs) {
      var dev := Describe(bus, addr, u).device;
      DescribedIsSound(bus, addr, u);
      SoundIsSized(dev);
      DevicesRoundTrip([dev], suffix);
      SeenDevice(d, cs, bus, addr, u.strings);
      assert DevicesSeen([dev]) == [DeviceSeen(dev)];
    }
  }

  /** If the first configuration is complete, it is the one that arrives, whatever follows it. */
  lemma CompleteFirstConfigurationArrives(d: DeviceLayout, cs: seq<ConfigLayout>, table: StringTable)
    requires cs != [] && forall c :: c in cs ==> ValidConfig(c)
    requires d.bNumConfigurations != 0 && Complete(cs[0])
    ensures Readable(d, cs) && ClientConfigs(d, cs, table) == [ClientConfig(cs[0], table)]
  {
    hide MergeAll, Usable, StringAt;
    MergeAllIsStream(cs);
    var own, all := Usable(cs[0].interfaces), Usable(MergeAll(cs).interfaces);
    assert own == all[..|own|];
    assert Take(own, cs[0].bNumInterfaces) == Take(all, cs[0].bNumInterfaces);
  }

  /** The configurations, each cut to the first announced number of its usable interfaces. */
  function AllConfigs(cs: seq<ConfigLayout>, table: StringTable): (r: seq<Config>)
    ensures |r| == |cs| && forall k :: 0 <= k < |r| ==> r[k] == ClientConfig(cs[k], table)
  {
    seq(|cs|, k requires 0 <= k < |cs| => ClientConfig(cs[k], table))
  }

  /** What a client decodes for one laid-out device, whatever else follows in the parcel. */
  function Arrived(bus: byte, addr: byte, u: Usbd, suffix: seq<Cell>): Parsed<seq<Device>>
    requires Describe(bus, addr, u).Known?
  {
    DecodeDevices(EncodeDevices([Describe(bus, addr, u).device]) + suffix)
  }

  /** Every configuration arrives, cut to its announced usable interfaces, iff there is none or one that is counted. */
  lemma EveryConfigurationArrives(
      d: DeviceLayout, cs: seq<ConfigLayout>, bus: byte, addr: byte, u: Usbd, suffix: seq<Cell>)
    requires forall c :: c in cs ==> ValidConfig(c)
    requires u.openCode == UecOk && u.rawCode == UecOk && u.raw == DeviceBytes(d) + SerializeConfigs(cs)
    requires Readable(d, cs)
    ensures Describe(bus, addr, u).Known?
    ensures var r := Arrived(bus, addr, u, suffix);
      && r.Got? && |r.value| == 1
      && (r.value[0].configs == AllConfigs(cs, u.strings) <==> cs == [] || (|cs| == 1 && d.bNumConfigurations != 0))
  {
    hide Describe, DecodeDevices, EncodeDevices, DeviceBytes, SerializeConfigs, Readable, ClientConfig;
    BytesToClient(d, cs, bus, addr, u, suffix);
  }

  // Nothing left out: every interface of every configuration, and the device with its protocol.

  function WholeInterfaces(items: seq<InterfaceLayout>): (r: seq<Interface>)
    ensures |r| == |items| && forall k :: 0 <= k < |r| ==> r[k] == InterfaceOf(items[k])
  {
    seq(|items|, k requires 0 <= k < |items| => InterfaceOf(items[k]))
  }

  function WholeConfig(c: ConfigLayout, table: StringTable): Config {
    Config(c.bConfigurationValue, c.bmAttributes, NameInterfaces(WholeInterfaces(c.interfaces), table),
           2 * c.bMaxPower, StringAt(c.iConfiguration, table), c.iConfiguration)
  }

  function WholeConfigs(cs: seq<ConfigLayout>, table: StringTable): (r: seq<Config>)
    ensures |r| == |cs| && forall k :: 0 <= k < |r| ==> r[k] == WholeConfig(cs[k], table)
  {
    seq(|cs|, k requires 0 <= k < |cs| => WholeConfig(cs[k], table))
  }

  function WholeDevice(d: DeviceLayout, cs: seq<ConfigLayout>, bus: byte, addr: byte, table: StringTable): Device {
    ClientDevice(d, WholeConfigs(cs, table), bus, addr, table).(protocol := d.bDeviceProtocol)
  }

  /** No interface is dropped for having no endpoints, and none for exceeding the announced number. */
  predicate NoInterfaceLost(c: ConfigLayout) {
    |c.interfaces| <= c.bNumInterfaces && forall i :: i in c.interfaces ==> i.endpoints != []
  }

  lemma {:induction false} UsableCount(items: seq<InterfaceLayout>)
    ensures |Usable(items)| <= |items|
    ensures |Usable(items)| == |items| <==> forall i :: i in items ==> i.endpoints != []
    decreases |items|
  {
    hide InterfaceOf;
    if items != [] {
      UsableCount(items[1..]);
      assert forall i :: i in items <==> i == items[0] || i in items[1..];
    }
  }

  lemma {:induction false} UsableIsWhole(items: seq<InterfaceLayout>)
    requires forall i :: i in items ==> i.endpoints != []
    ensures Usable(items) == WholeInterfaces(items)
    decreases |items|
  {
    hide InterfaceOf;
    if items != [] {
      assert items[0] in items;
      UsableIsWhole(items[1..]);
      assert WholeInterfaces(items) == [InterfaceOf(items[0])] + WholeInterfaces(items[1..]);
    }
  }

  /** The interfaces the parser keeps are all of them iff none is without endpoints and none too many. */
  lemma KeptInterfacesExact(c: ConfigLayout, table: StringTable)
    ensures Take(Usable(c.interfaces), c.bNumInterfaces) == WholeInterfaces(c.interfaces) <==> NoInterfaceLost(c)
    ensures ClientConfig(c, table) == WholeConfig(c, table) <==> NoInterfaceLost(c)
  {
    hide Usable, InterfaceOf, StringAt;
    UsableCount(c.interfaces);
    if NoInterfaceLost(c) {
      UsableIsWhole(c.interfaces);
    }
    var kept, whole := Take(Usable(c.interfaces), c.bNumInterfaces), WholeInterfaces(c.interfaces);
    if kept != whole {
      assert |kept| < |whole|;
      assert |NameInterfaces(kept, table)| < |NameInterfaces(whole, table)|;
    }
  }

  /** Nothing of the configurations can get lost. */
  predicate Lossless(d: DeviceLayout, cs: seq<ConfigLayout>) {
    || cs == []
    || (|cs| == 1 && d.bNumConfigurations != 0 && NoInterfaceLost(cs[0])
        && (|cs[0].interfaces| == cs[0].bNumInterfaces || cs[0].tail == []))
  }

  lemma LosslessExact(d: DeviceLayout, cs: seq<ConfigLayout>, table: StringTable)
    requires forall c :: c in cs ==> ValidConfig(c)
    ensures Readable(d, cs) && ClientConfigs(d, cs, table) == WholeConfigs(cs, table) <==> Lossless(d, cs)
  {
    hide ClientConfig, WholeConfig, NoInterfaceLost, Complete, Usable;
    if |cs| == 1 {
      assert MergeAll(cs) == cs[0];
      KeptInterfacesExact(cs[0], table);
      if NoInterfaceLost(cs[0]) {
        ReadableIfWhole(cs[0]);
      }
    }
    hide MergeAll;
  }

  /**
   For every laid-out device: a client decodes its whole tree iff the device has no configuration, or
   exactly one, which is counted, loses no interface, and has no interface missing in front of other
   descriptors. It decodes the whole device iff moreover the device protocol is 0.
   */
  lemma WholeTreeArrives(
      d: DeviceLayout, cs: seq<ConfigLayout>, bus: byte, addr: byte, u: Usbd, suffix: seq<Cell>)
    requires forall c :: c in cs ==> ValidConfig(c)
    requires u.openCode == UecOk && u.rawCode == UecOk && u.raw == DeviceBytes(d) + SerializeConfigs(cs)
    ensures var known := Describe(bus, addr, u).Known?;
      && (known && TreeArrived(Arrived(bus, addr, u, suffix), WholeConfigs(cs, u.strings)) <==> Lossless(d, cs))
      && (known && Arrived(bus, addr, u, suffix) == Got([WholeDevice(d, cs, bus, addr, u.strings)], suffix)
          <==> Lossless(d, cs) && d.bDeviceProtocol == 0)
  {
    hide Describe, DecodeDevices, EncodeDevices, DeviceBytes, SerializeConfigs, ClientConfigs, WholeConfigs,
      Readable, Lossless, StringAt, DeviceName, VersionOf, TailHazard, MergeAll;
    BytesToClient(d, cs, bus, addr, u, suffix);
    LosslessExact(d, cs, u.strings);
  }

  predicate TreeArrived(r: Parsed<seq<Device>>, configs: seq<Config>) {
    r.Got? && |r.value| == 1 && r.value[0].configs == configs
  }

  lemma ReadableIfWhole(c: ConfigLayout)
    requires NoInterfaceLost(c)
    ensures Complete(c) <==> |c.interfaces| == c.bNumInterfaces
  {
    hide Usable, InterfaceOf;
    UsableCount(c.interfaces);
  }

  /** The device protocol is the one field of the device descriptor that arrives as 0 whatever was sent. */
  lemma ProtocolArrives(
      d: DeviceLayout, cs: seq<ConfigLayout>, bus: byte, addr: byte, u: Usbd, suffix: seq<Cell>)
    requires forall c :: c in cs ==> ValidConfig(c)
    requires u.openCode == UecOk && u.rawCode == UecOk && u.raw == DeviceBytes(d) + SerializeConfigs(cs)
    requires Readable(d, cs)
    ensures Describe(bus, addr, u).Known?
    ensures var r := Arrived(bus, addr, u, suffix);
      && r.Got? && |r.value| == 1
      && (r.value[0].protocol == d.bDeviceProtocol <==> d.bDeviceProtocol == 0)
  {
    hide Describe, DecodeDevices, EncodeDevices, DeviceBytes, SerializeConfigs, Readable, ClientConfigs;
    BytesToClient(d, cs, bus, addr, u, suffix);
  }

  // ---------------------------------------------------------------- runs of the service

  lemma {:induction false} NewestIsSound(events: seq<Host.HostEvent>, bus: byte, addr: byte)
    requires Host.Newest(events, bus, addr).Some?
    ensures var d := Host.Newest(events, bus, addr).value;
      Sound(d) && d.busNum == bus && d.devAddr == addr
    decreases |events|
  {
    hide Describe, Sound;
    var before, e := events[..|events| - 1], events[|events| - 1];
    if e.Up? && Describe(e.bus, e.addr, e.usbd).Known? {
      DescribedIsSound(e.bus, e.addr, e.usbd);
    }
    if Host.Newest(before, bus, addr).Some? {
      NewestIsSound(before, bus, addr);
    }
  }

  /** A listing holds exactly the newest descriptions of the devices the events leave attached. */
  lemma ListingIsNewest(events: seq<Host.HostEvent>, list: seq<Device>, d: Device)
    requires ListedFrom(Host.Run(events), list)
    ensures d in list <==> Host.Newest(events, d.busNum, d.devAddr) == Some(d)
  {
    hide Host.Run, Host.Newest, Host.Owned, Host.FreedOnce, Host.Balanced, InKeyOrder;
    var h := Host.Run(events);
    Host.RegistryExact(events, d.busNum, d.devAddr);
    var keys :| ListedAs(h, keys, list);
    KeysAreNames(h, keys, list);
    if d in list {
      var i :| 0 <= i < |list| && list[i] == d;
      assert keys[i] in keys;
    }
    if Host.Newest(events, d.busNum, d.devAddr) == Some(d) {
      assert Host.KeyOf(d) in keys;
      var i :| 0 <= i < |keys| && keys[i] == Host.KeyOf(d);
      assert list[i] == d;
    }
  }

  lemma ListingIsSized(events: seq<Host.HostEvent>, list: seq<Device>)
    requires ListedFrom(Host.Run(events), list)
    ensures SizedDevices(list)
  {
    hide Host.Run, Host.Newest, Host.Inv, Sound, SizedConfigs;
    Host.RegistryExact(events, 0, 0);
    var keys :| ListedAs(Host.Run(events), keys, list);
    ListingIsSmall(Host.Run(events), keys, list);
    forall d | d in list ensures SizedConfigs(d.configs) {
      ListingIsNewest(events, list, d);
      NewestIsSound(events, d.busNum, d.devAddr);
      SoundIsSized(d);
    }
  }

  /**
   After every run of the service, what a client decodes from the list parcel is the listing as
   DeviceSeen says, and contains for every bus and address exactly the newest attached description.
   */
  lemma ClientSeesRegistry(calls: seq<Call>, list: seq<Device>, suffix: seq<Cell>)
    requires ListedFrom(After(calls).host, list)
    ensures DecodeDevices(EncodeDevices(list) + suffix) == Got(DevicesSeen(list), suffix)
    ensures forall d :: d in list <==> Host.Newest(HostEvents(calls), d.busNum, d.devAddr) == Some(d)
  {
    hide ListedFrom, Host.Newest, DecodeDevices, EncodeDevices, SizedConfigs, Counted;
    HostFollowsEvents(calls);
    ListingIsSized(HostEvents(calls), list);
    DevicesRoundTrip(list, suffix);
    forall d: Device ensures d in list <==> Host.Newest(HostEvents(calls), d.busNum, d.devAddr) == Some(d) {
      ListingIsNewest(HostEvents(calls), list, d);
    }
  }

  // ---------------------------------------------------------------- runs from bytes to client

  /** What the device of one attach event looks like on the wire. */
  datatype Layout = Layout(device: DeviceLayout, configs: seq<ConfigLayout>)

  /** If the event is an attach for which usbd hands out a raw descriptor, its bytes are those of this layout. */
  predicate Carries(e: Host.HostEvent, l: Layout) {
    && (forall c :: c in l.configs ==> ValidConfig(c))
    && (e.Up? && Host.HandedOut(e.usbd) ==> e.usbd.raw == DeviceBytes(l.device) + SerializeConfigs(l.configs))
  }

  predicate AllCarry(events: seq<Host.HostEvent>, layouts: seq<Layout>) {
    |layouts| == |events| && forall i :: 0 <= i < |events| ==> Carries(events[i], layouts[i])
  }

  /** Every detach counts, and every attach whose device could be opened. */
  predicate Counts(e: Host.HostEvent) {
    e.Up? ==> e.usbd.openCode == UecOk
  }

  /** The bus and address an event is about: an attach without a raw descriptor is filed under 0 and 0. */
  function Place(e: Host.HostEvent): (byte, byte) {
    if e.Up? && !Host.HandedOut(e.usbd) then (0, 0) else (e.bus, e.addr)
  }

  /** Event i is an attach that counts, and no later event that counts is about the same place. */
  predicate StillAttached(events: seq<Host.HostEvent>, i: int) {
    && 0 <= i < |events| && events[i].Up? && Counts(events[i])
    && forall j :: i < j < |events| && Counts(events[j]) ==> Place(events[j]) != Place(events[i])
  }

  /** The device a client should decode for an attach; without a raw descriptor it is empty. */
  function Expected(e: Host.HostEvent, l: Layout): Device
    requires e.Up? && Carries(e, l)
  {
    if Host.HandedOut(e.usbd)
    then ClientDevice(l.device, ClientConfigs(l.device, l.configs, e.usbd.strings), e.bus, e.addr, e.usbd.strings)
    else EMPTY_DEVICE
  }

  // As a client sees it: nothing but blanks for the missing strings and the release number 0.
  const EMPTY_DEVICE := Device("", " ", " ", "0000", " ", 0, 0, 255, 0, 0, 0, 0, 0, 0, 0, 0, 0, 0, 0, [])

  lemma EmptyArrives(e: Host.HostEvent)
    requires e.Up? && Counts(e) && !Host.HandedOut(e.usbd)
    ensures Describe(e.bus, e.addr, e.usbd) == Known(NameDevice(CLEARED_DEVICE, e.usbd.strings))
    ensures DeviceSeen(NameDevice(CLEARED_DEVICE, e.usbd.strings)) == EMPTY_DEVICE
  {
    var named := NameDevice(CLEARED_DEVICE, e.usbd.strings);
    StringDecided(0, e.usbd.strings);
    VersionNibbles(0);
    NoLeadingZero(0);
    hide StringAt, VersionOf, Digits;
    assert CLEARED_DEVICE.(configs := []) == CLEARED_DEVICE;
    assert named.configs == [] && ConfigsSeen([]) == [];
  }

  lemma AttachArrives(e: Host.HostEvent, l: Layout)
    requires e.Up? && Counts(e) && Carries(e, l)
    ensures var info := Describe(e.bus, e.addr, e.usbd);
      && info.Known? && (info.device.busNum, info.device.devAddr) == Place(e)
      && DeviceSeen(info.device) == Expected(e, l)
  {
    hide Describe, DeviceBytes, SerializeConfigs, Readable, ClientDevice, ClientConfigs, DeviceSeen, ParsedConfigs;
    if Host.HandedOut(e.usbd) {
      DescribeLaidOut(l.device, l.configs, e.bus, e.addr, e.usbd);
      SeenDevice(l.device, l.configs, e.bus, e.addr, e.usbd.strings);
    } else {
      EmptyArrives(e);
    }
  }

  /** Event i is the attach of d, and nothing later that counts is about the same place. */
  predicate Leaves(events: seq<Host.HostEvent>, i: int, d: Device) {
    StillAttached(events, i) && Describe(events[i].bus, events[i].addr, events[i].usbd) == Known(d)
  }

  lemma LeavesStep(before: seq<Host.HostEvent>, e: Host.HostEvent, i: int, d: Device)
    requires 0 <= i < |before|
    ensures Leaves(before + [e], i, d) <==> Leaves(before, i, d) && !(Counts(e) && Place(e) == Place(before[i]))
  {
    hide Describe, Place, Counts;
    var events := before + [e];
    assert events[|before|] == e;
    assert forall j :: 0 <= j < |before| ==> before[j] == events[j];
  }

  lemma LeavesLast(before: seq<Host.HostEvent>, e: Host.HostEvent, d: Device)
    ensures Leaves(before + [e], |before|, d)
       <==> e.Up? && Counts(e) && Describe(e.bus, e.addr, e.usbd) == Known(d)
  {
    hide Describe, Place, Counts;
    assert (before + [e])[|before|] == e;
  }

  /** An attach that does not count leaves every description as it was. */
  lemma RefusedAttach(e: Host.HostEvent)
    requires e.Up? && !Counts(e)
    ensures Describe(e.bus, e.addr, e.usbd).Refused?
  {
  }

  lemma LeavesOwnName(events: seq<Host.HostEvent>, layouts: seq<Layout>, i: int, d: Device)
    requires AllCarry(events, layouts) && Leaves(events, i, d)
    ensures Place(events[i]) == (d.busNum, d.devAddr)
    ensures DeviceSeen(d) == Expected(events[i], layouts[i])
  {
    hide Describe, Carries, DeviceSeen, Expected;
    AttachArrives(events[i], layouts[i]);
  }

  lemma LastEvent(e: Host.HostEvent, l: Layout)
    requires Carries(e, l)
    ensures e.Down? ==> Counts(e) && Place(e) == (e.bus, e.addr)
    ensures e.Up? && !Counts(e) ==> Describe(e.bus, e.addr, e.usbd).Refused?
    ensures e.Up? && Counts(e) ==>
      var info := Describe(e.bus, e.addr, e.usbd);
      info.Known? && (info.device.busNum, info.device.devAddr) == Place(e)
  {
    hide Describe, Carries, Expected, DeviceSeen;
    if e.Up? && Counts(e) {
      AttachArrives(e, l);
    } else if e.Up? {
      RefusedAttach(e);
    }
  }

  /** The newest description of a bus and address, told by positions: it is that of an attach still standing. */
  lemma {:induction false} NewestIsStanding(events: seq<Host.HostEvent>, layouts: seq<Layout>, d: Device)
    requires AllCarry(events, layouts)
    ensures Host.Newest(events, d.busNum, d.devAddr) == Some(d) <==> exists i :: Leaves(events, i, d)
    decreases |events|
  {
    hide Describe, Leaves, Carries, Expected, DeviceSeen, Counts, Place;
    if events != [] {
      var n := |events| - 1;
      var before, e := events[..n], events[n];
      var same := Counts(e) && Place(e) == (d.busNum, d.devAddr);
      NewestIsStanding(before, layouts[..n], d);
      assert events == before + [e];
      LeavesLast(before, e, d);
      LastEvent(e, layouts[n]);
      forall i | 0 <= i < n ensures Leaves(events, i, d) <==> Leaves(before, i, d) && !same {
        LeavesStep(before, e, i, d);
        if Leaves(before, i, d) {
          LeavesOwnName(before, layouts[..n], i, d);
        }
      }
      InRange(events, d);
      InRange(before, d);
    } else {
      InRange(events, d);
    }
  }

  lemma InRange(events: seq<Host.HostEvent>, d: Device)
    ensures forall i :: Leaves(events, i, d) ==> 0 <= i < |events|
  {
    hide Describe;
  }

  /** Event i is an attach still standing, and x is its device as laid out. */
  predicate Standing(events: seq<Host.HostEvent>, layouts: seq<Layout>, i: int, x: Device)
    requires AllCarry(events, layouts)
  {
    StillAttached(events, i) && x == Expected(events[i], layouts[i])
  }

  lemma StandingIsListed(events: seq<Host.HostEvent>, layouts: seq<Layout>, list: seq<Device>, i: int)
    requires AllCarry(events, layouts) && ListedFrom(Host.Run(events), list) && StillAttached(events, i)
    ensures Expected(events[i], layouts[i]) in DevicesSeen(list)
  {
    hide Describe, Carries, Expected, DeviceSeen, ListedFrom, Host.Run, Host.Newest;
    AttachArrives(events[i], layouts[i]);
    var d := Describe(events[i].bus, events[i].addr, events[i].usbd).device;
    assert Leaves(events, i, d);
    NewestIsStanding(events, layouts, d);
    ListingIsNewest(events, list, d);
    var k :| 0 <= k < |list| && list[k] == d;
    assert DevicesSeen(list)[k] == DeviceSeen(d);
  }

  lemma ListedIsStanding(events: seq<Host.HostEvent>, layouts: seq<Layout>, list: seq<Device>, k: nat)
    requires AllCarry(events, layouts) && ListedFrom(Host.Run(events), list) && k < |list|
    ensures exists i :: Standing(events, layouts, i, DevicesSeen(list)[k])
  {
    hide Describe, Carries, Expected, DeviceSeen, ListedFrom, Host.Run, Host.Newest, StillAttached;
    var d := list[k];
    ListingIsNewest(events, list, d);
    NewestIsStanding(events, layouts, d);
    var i :| Leaves(events, i, d);
    LeavesOwnName(events, layouts, i, d);
    assert Standing(events, layouts, i, DevicesSeen(list)[k]);
  }

  lemma SeenKeepsPlace(d: Device)
    ensures DeviceSeen(d).busNum == d.busNum && DeviceSeen(d).devAddr == d.devAddr
  {
  }

  lemma NoDeviceTwice(events: seq<Host.HostEvent>, list: seq<Device>, j: nat, k: nat)
    requires ListedFrom(Host.Run(events), list) && j < k < |list|
    ensures DevicesSeen(list)[j] != DevicesSeen(list)[k]
  {
    hide Host.Run, Host.Inv, DeviceSeen, DeviceName;
    Host.RegistryExact(events, 0, 0);
    var keys :| ListedAs(Host.Run(events), keys, list);
    KeysAreNames(Host.Run(events), keys, list);
    assert keys[j] != keys[k];
    SeenKeepsPlace(list[j]);
    SeenKeepsPlace(list[k]);
  }

  /**
   From the bytes of many devices to the client's list. After every run of the service whose raw
   descriptors are laid out, with devices that cannot be opened or have no descriptor, detaches and calls
   for rights in any order between them, the list a client decodes holds exactly the devices as laid out
   of the attaches still standing, each once.
   */
  lemma ClientSeesLayouts(calls: seq<Call>, layouts: seq<Layout>, list: seq<Device>, suffix: seq<Cell>)
    requires AllCarry(HostEvents(calls), layouts)
    requires ListedFrom(After(calls).host, list)
    ensures var events, r := HostEvents(calls), DecodeDevices(EncodeDevices(list) + suffix);
      && r.Got? && r.rest == suffix
      && (forall x :: x in r.value <==> exists i :: Standing(events, layouts, i, x))
      && (forall j, k :: 0 <= j < k < |r.value| ==> r.value[j] != r.value[k])
  {
    hide After, ListedFrom, Host.Newest, DecodeDevices, EncodeDevices, DeviceSeen, AllCarry, StillAttached, Expected;
    var events := HostEvents(calls);
    HostFollowsEvents(calls);
    ClientSeesRegistry(calls, list, suffix);
    var seen := DevicesSeen(list);
    forall x | x in seen ensures exists i :: Standing(events, layouts, i, x) {
      var k :| 0 <= k < |seen| && seen[k] == x;
      ListedIsStanding(events, layouts, list, k);
    }
    forall x, i | Standing(events, layouts, i, x) ensures x in seen {
      StandingIsListed(events, layouts, list, i);
    }
    forall j, k | 0 <= j < k < |seen| ensures seen[j] != seen[k] {
      NoDeviceTwice(events, list, j, k);
    }
  }

  // ---------------------------------------------------------------- the call itself

  /** The service's side: list the devices and write them into the reply. */
  method DoGetDevices(service: UsbService, reply: MessageParcel) returns (code: Code, ghost sent: seq<Device>)
    requires service.Valid() && reply.Valid()
    modifies reply`cells
    ensures service.Valid() && reply.Valid() && ListedFrom(service.usbHostManager.Model(), sent)
    ensures Written(old(reply.cells), EncodeDevices(sent), reply, code)
  {
    var deviceList := service.GetDevices();
    sent := deviceList;
    code := SetDeviceListMessageParcel(deviceList, reply);
  }

  /** The request as it reaches the service: its token is checked before the call is made. */
  method SendGetDevices(service: UsbService, data: MessageParcel, reply: MessageParcel)
    returns (code: Code, ghost sent: seq<Device>)
    requires service.Valid() && data.Valid() && reply.Valid() && data != reply
    modifies data`pos, reply`cells
    ensures reply.Valid() && data.Valid()
    ensures var s := old(data.Unread());
      if s != [] && s[0] == Str("ohos.usb.IUsbSrv")
      then ListedFrom(service.usbHostManager.Model(), sent)
           && Written(old(reply.cells), EncodeDevices(sent), reply, code)
      else code == UecServiceInnerErr && reply.cells == old(reply.cells)
  {
    sent := [];
    code := CheckInterfaceToken(data);
    if code != UecOk {
      return;
    }
    code, sent := DoGetDevices(service, reply);
  }

  /** There is exactly one listing after a run, and it survives the parcel. */
  lemma OneListing(calls: seq<Call>) returns (list: seq<Device>)
    ensures ListedFrom(After(calls).host, list)
    ensures forall other :: ListedFrom(After(calls).host, other) ==> other == list
    ensures DecodeDevices(EncodeDevices(list)) == Got(DevicesSeen(list), [])
  {
    hide EncodeDevices, DecodeDevices, ListedFrom, After, DevicesSeen, Host.Inv;
    HostFollowsEvents(calls);
    Host.RegistryExact(HostEvents(calls), 0, 0);
    list := ListingExists(After(calls).host);
    forall other | ListedFrom(After(calls).host, other) ensures other == list {
      ListingIsUnique(After(calls).host, other, list);
    }
    ClientSeesRegistry(calls, list, []);
    assert EncodeDevices(list) + [] == EncodeDevices(list);
  }

  lemma RowFits(row: seq<Cell>, room: nat)
    ensures Fits([], row, room) <==> |row| <= room
    ensures |row| <= room ==> Fill([], row, room) == row
  {
  }

  /**
   The client's call after any run. There is one listing; the call succeeds iff the service is connected,
   the token fits into the request and the listing's row into the reply, and then returns the listing as
   seen through the parcel.
   */
  method GetDevices(service: UsbService, connected: bool, room: nat, replyRoom: nat, ghost calls: seq<Call>)
    returns (code: Code, deviceList: seq<Device>)
    requires service.Valid() && service.Model() == After(calls)
    ensures exists sent :: ListedFrom(After(calls).host, sent)
    ensures forall sent :: ListedFrom(After(calls).host, sent) ==>
      && (code ==
            if !connected || room < 1 then ErrInvalidValue
            else if |EncodeDevices(sent)| > replyRoom then UecServiceWriteParcelError
            else UecOk)
      && (deviceList == if code == UecOk then DevicesSeen(sent) else [])
  {
    hide EncodeDevices, DecodeDevices, ListedFrom, After, DevicesSeen, Host.Inv, Fill, Fits;
    deviceList := [];
    code := ErrInvalidValue;
    ghost var listed := OneListing(calls);
    if !connected {
      return;
    }
    var data := new MessageParcel(room);
    var ok := data.WriteInterfaceToken();
    RowFits([Str(IUSB_SRV)], room);
    if !ok {
      return;
    }
    var reply := new MessageParcel(replyRoom);
    ghost var sent;
    code, sent := SendGetDevices(service, data, reply);
    RowFits(EncodeDevices(sent), replyRoom);
    if code != UecOk {
      return;
    }
    code, deviceList := GetDeviceListMessageParcel(reply);
  }

}
