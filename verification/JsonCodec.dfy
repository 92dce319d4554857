/**
 The second export of a device description: a JSON tree, written by ToJson and read by the
 constructors from JSON. A list without elements stays the null value it started as.
 */
module JsonCodec {
  import opened Machine
  import opened DeviceTree
  import opened DeviceCodec
  import opened DeviceInfo
  import Decimal = Text

  /** The member names that occur. */
  datatype Key =
    | Address | Attributes | Interval | MaxPacketSize | Direction | Number | Type | InterfaceId
    | Id | Protocol | Clazz | SubClass | AlternateSetting | Name | Endpoints
    | MaxPower | IsRemoteWakeup | IsSelfPowered | Interfaces
    | BusNum | DevAddress | Serial | ManufacturerName | ProductName | Version | VendorId | ProductId | Configs

  datatype Json =
    | Null
    | Num(n: int)
    | Text(s: string)
    | Flag(b: bool)
    | Arr(items: seq<Json>)
    | Obj(members: map<Key, Json>)

  /** A missing member reads as null. */
  function Member(j: Json, key: Key): Json {
    if j.Obj? && key in j.members then j.members[key] else Null
  }

  // The library's conversions. Null is 0 or empty, a truth value is 1 or 0, or its word, and a number has
  // its decimal text; what the library refuses to convert is given as 0 or empty.

  function AsInt(j: Json): int32 {
    match j
    case Num(n) => if -0x8000_0000 <= n < 0x8000_0000 then n else 0
    case Flag(b) => if b then 1 else 0
    case _ => 0
  }

  function AsUInt(j: Json): uint32 {
    match j
    case Num(n) => if 0 <= n < 0x1_0000_0000 then n else 0
    case Flag(b) => if b then 1 else 0
    case _ => 0
  }

  function AsString(j: Json): string {
    match j
    case Text(s) => s
    case Num(n) => if n < 0 then "-" + Decimal.Digits(-n) else Decimal.Digits(n)
    case Flag(b) => if b then "true" else "false"
    case _ => ""
  }

  /** The elements of an array; null has none. */
  function Elements(j: Json): seq<Json> {
    if j.Arr? then j.items else []
  }

  function Append(j: Json, x: Json): Json {
    Arr(Elements(j) + [x])
  }

  function ListOf(items: seq<Json>): Json {
    if items == [] then Null else Arr(items)
  }

  // The masks of the endpoint and configuration attributes: 0x80, 0x0F, 0x03, 0x20.

  function GetDirection(e: Endpoint): uint32 {
    if e.address / 0x80 % 2 == 1 then 0x80 else 0
  }

  function GetEndpointNumber(e: Endpoint): uint32 {
    e.address % 0x10
  }

  function GetType(e: Endpoint): uint32 {
    e.attributes % 4
  }

  function RemoteWakeup(c: Config): bool {
    c.attributes / 0x20 % 2 == 1
  }

  function SelfPowered(c: Config): bool {
    c.attributes / 0x80 % 2 == 1
  }

  // ---------------------------------------------------------------- writing

  function EndpointJson(e: Endpoint): Json {
    Obj(map[Address := Num(e.address), Attributes := Num(e.attributes), Interval := Num(e.interval),
            MaxPacketSize := Num(e.maxPacketSize), Direction := Num(GetDirection(e)),
            Number := Num(GetEndpointNumber(e)), Type := Num(GetType(e)), InterfaceId := Num(e.interfaceId)])
  }

  function EndpointsJson(es: seq<Endpoint>): (r: seq<Json>)
    ensures |r| == |es| && forall k :: 0 <= k < |r| ==> r[k] == EndpointJson(es[k])
  {
    seq(|es|, k requires 0 <= k < |es| => EndpointJson(es[k]))
  }

  function InterfaceJson(i: Interface): Json {
    Obj(map[Id := Num(i.id), Protocol := Num(i.protocol), Clazz := Num(i.klass), SubClass := Num(i.subClass),
            AlternateSetting := Num(i.alternateSetting), Name := Text(i.name),
            Endpoints := ListOf(EndpointsJson(i.endpoints))])
  }

  function InterfacesJson(items: seq<Interface>): (r: seq<Json>)
    ensures |r| == |items| && forall k :: 0 <= k < |r| ==> r[k] == InterfaceJson(items[k])
  {
    seq(|items|, k requires 0 <= k < |items| => InterfaceJson(items[k]))
  }

  function ConfigJson(c: Config): Json {
    Obj(map[Id := Num(c.id), Attributes := Num(c.attributes), MaxPower := Num(c.maxPower), Name := Text(c.name),
            IsRemoteWakeup := Flag(RemoteWakeup(c)), IsSelfPowered := Flag(SelfPowered(c)),
            Interfaces := ListOf(InterfacesJson(c.interfaces))])
  }

  function ConfigsJson(cs: seq<Config>): (r: seq<Json>)
    ensures |r| == |cs| && forall k :: 0 <= k < |r| ==> r[k] == ConfigJson(cs[k])
  {
    seq(|cs|, k requires 0 <= k < |cs| => ConfigJson(cs[k]))
  }

  function DeviceJson(d: Device): Json {
    Obj(map[BusNum := Num(d.busNum), DevAddress := Num(d.devAddr), Serial := Text(d.serial), Name := Text(d.name),
            ManufacturerName := Text(d.manufacturerName), ProductName := Text(d.productName),
            Version := Text(d.version), VendorId := Num(d.vendorId), ProductId := Num(d.productId),
            Clazz := Num(d.klass), SubClass := Num(d.subClass), Protocol := Num(d.protocol),
            Configs := ListOf(ConfigsJson(d.configs))])
  }

  method InterfaceToJson(i: Interface) returns (result: Json)
    ensures result == InterfaceJson(i)
  {
    var endpoints := Null;
    for k := 0 to |i.endpoints|
      invariant endpoints == ListOf(EndpointsJson(i.endpoints[..k]))
    {
      endpoints := Append(endpoints, EndpointJson(i.endpoints[k]));
      assert EndpointsJson(i.endpoints[..k + 1]) == EndpointsJson(i.endpoints[..k]) + [EndpointJson(i.endpoints[k])];
    }
    assert i.endpoints[..|i.endpoints|] == i.endpoints;
    result := Obj(map[Id := Num(i.id), Protocol := Num(i.protocol), Clazz := Num(i.klass),
                          SubClass := Num(i.subClass), AlternateSetting := Num(i.alternateSetting),
                          Name := Text(i.name), Endpoints := endpoints]);
  }

  method ConfigToJson(c: Config) returns (config: Json)
    ensures config == ConfigJson(c)
  {
    var interfaces := Null;
    for k := 0 to |c.interfaces|
      invariant interfaces == ListOf(InterfacesJson(c.interfaces[..k]))
    {
      var i := InterfaceToJson(c.interfaces[k]);
      interfaces := Append(interfaces, i);
      assert InterfacesJson(c.interfaces[..k + 1]) == InterfacesJson(c.interfaces[..k]) + [i];
    }
    assert c.interfaces[..|c.interfaces|] == c.interfaces;
    config := Obj(map[Id := Num(c.id), Attributes := Num(c.attributes), MaxPower := Num(c.maxPower),
                      Name := Text(c.name), IsRemoteWakeup := Flag(RemoteWakeup(c)),
                      IsSelfPowered := Flag(SelfPowered(c)), Interfaces := interfaces]);
  }

  method DeviceToJson(d: Device) returns (device: Json)
    ensures device == DeviceJson(d)
  {
    var configs := Null;
    for k := 0 to |d.configs|
      invariant configs == ListOf(ConfigsJson(d.configs[..k]))
    {
      var c := ConfigToJson(d.configs[k]);
      configs := Append(configs, c);
      assert ConfigsJson(d.configs[..k + 1]) == ConfigsJson(d.configs[..k]) + [c];
    }
    assert d.configs[..|d.configs|] == d.configs;
    device := Obj(map[BusNum := Num(d.busNum), DevAddress := Num(d.devAddr), Serial := Text(d.serial),
                      Name := Text(d.name), ManufacturerName := Text(d.manufacturerName),
                      ProductName := Text(d.productName), Version := Text(d.version),
                      VendorId := Num(d.vendorId), ProductId := Num(d.productId), Clazz := Num(d.klass),
                      SubClass := Num(d.subClass), Protocol := Num(d.protocol), Configs := configs]);
  }

  // ---------------------------------------------------------------- reading

  function EndpointFrom(j: Json): Endpoint {
    Endpoint(AsUInt(Member(j, Address)), AsUInt(Member(j, Attributes)), AsInt(Member(j, Interval)),
             AsInt(Member(j, MaxPacketSize)), ToByte(AsUInt(Member(j, InterfaceId))))
  }

  function EndpointsFrom(js: seq<Json>): (r: seq<Endpoint>)
    ensures |r| == |js| && forall k :: 0 <= k < |r| ==> r[k] == EndpointFrom(js[k])
  {
    seq(|js|, k requires 0 <= k < |js| => EndpointFrom(js[k]))
  }

  function InterfaceFrom(j: Json): Interface {
    Interface(AsInt(Member(j, Id)), AsInt(Member(j, Protocol)), AsInt(Member(j, Clazz)), AsInt(Member(j, SubClass)),
              AsInt(Member(j, AlternateSetting)), AsString(Member(j, Name)),
              EndpointsFrom(Elements(Member(j, Endpoints))), UINT8_MAX)
  }

  function InterfacesFrom(js: seq<Json>): (r: seq<Interface>)
    ensures |r| == |js| && forall k :: 0 <= k < |r| ==> r[k] == InterfaceFrom(js[k])
  {
    seq(|js|, k requires 0 <= k < |js| => InterfaceFrom(js[k]))
  }

  function ConfigFrom(j: Json): Config {
    Config(AsInt(Member(j, Id)), AsUInt(Member(j, Attributes)), InterfacesFrom(Elements(Member(j, Interfaces))),
           AsInt(Member(j, MaxPower)), AsString(Member(j, Name)), UINT8_MAX)
  }

  function ConfigsFrom(js: seq<Json>): (r: seq<Config>)
    ensures |r| == |js| && forall k :: 0 <= k < |r| ==> r[k] == ConfigFrom(js[k])
  {
    seq(|js|, k requires 0 <= k < |js| => ConfigFrom(js[k]))
  }

  function DeviceFrom(j: Json): Device {
    Device(AsString(Member(j, Name)), AsString(Member(j, ManufacturerName)), AsString(Member(j, ProductName)),
           AsString(Member(j, Version)), AsString(Member(j, Serial)), ToByte(AsUInt(Member(j, DevAddress))),
           ToByte(AsUInt(Member(j, BusNum))), UINT8_MAX, UINT8_MAX, UINT16_MAX, UINT16_MAX, UINT8_MAX, UINT8_MAX,
           UINT8_MAX, AsInt(Member(j, VendorId)), AsInt(Member(j, ProductId)), AsInt(Member(j, Clazz)),
           AsInt(Member(j, SubClass)), AsInt(Member(j, Protocol)), ConfigsFrom(Elements(Member(j, Configs))))
  }

  /** The interface constructor from JSON: one endpoint is appended per array element. */
  method NewInterface(j: Json) returns (i: Interface)
    ensures i == InterfaceFrom(j)
  {
    i := DEFAULT_INTERFACE.(
      id := AsInt(Member(j, Id)), protocol := AsInt(Member(j, Protocol)), klass := AsInt(Member(j, Clazz)),
      subClass := AsInt(Member(j, SubClass)), alternateSetting := AsInt(Member(j, AlternateSetting)),
      name := AsString(Member(j, Name)));
    var endpoints := Elements(Member(j, Endpoints));
    ghost var scalars := i;
    for idx := 0 to |endpoints|
      invariant i == scalars.(endpoints := EndpointsFrom(endpoints[..idx]))
    {
      assert EndpointsFrom(endpoints[..idx + 1]) == EndpointsFrom(endpoints[..idx]) + [EndpointFrom(endpoints[idx])];
      i := i.(endpoints := i.endpoints + [EndpointFrom(endpoints[idx])]);
    }
    assert endpoints[..|endpoints|] == endpoints;
  }

  method NewConfig(j: Json) returns (c: Config)
    ensures c == ConfigFrom(j)
  {
    c := DEFAULT_CONFIG.(
      id := AsInt(Member(j, Id)), attributes := AsUInt(Member(j, Attributes)),
      maxPower := AsInt(Member(j, MaxPower)), name := AsString(Member(j, Name)));
    var interfaces := Elements(Member(j, Interfaces));
    ghost var scalars := c;
    for idx := 0 to |interfaces|
      invariant c == scalars.(interfaces := InterfacesFrom(interfaces[..idx]))
    {
      assert InterfacesFrom(interfaces[..idx + 1])
          == InterfacesFrom(interfaces[..idx]) + [InterfaceFrom(interfaces[idx])];
      var i := NewInterface(interfaces[idx]);
      c := c.(interfaces := c.interfaces + [i]);
    }
    assert interfaces[..|interfaces|] == interfaces;
  }

  method NewDevice(j: Json) returns (d: Device)
    ensures d == DeviceFrom(j)
  {
    d := Device(AsString(Member(j, Name)), AsString(Member(j, ManufacturerName)), AsString(Member(j, ProductName)),
                AsString(Member(j, Version)), AsString(Member(j, Serial)), ToByte(AsUInt(Member(j, DevAddress))),
                ToByte(AsUInt(Member(j, BusNum))), UINT8_MAX, UINT8_MAX, UINT16_MAX, UINT16_MAX, UINT8_MAX, UINT8_MAX,
                UINT8_MAX, AsInt(Member(j, VendorId)), AsInt(Member(j, ProductId)), AsInt(Member(j, Clazz)),
                AsInt(Member(j, SubClass)), AsInt(Member(j, Protocol)), []);
    var configs := Elements(Member(j, Configs));
    ghost var scalars := d;
    for idx := 0 to |configs|
      invariant d == scalars.(configs := ConfigsFrom(configs[..idx]))
    {
      assert ConfigsFrom(configs[..idx + 1]) == ConfigsFrom(configs[..idx]) + [ConfigFrom(configs[idx])];
      var c := NewConfig(configs[idx]);
      d := d.(configs := d.configs + [c]);
    }
    assert configs[..|configs|] == configs;
  }

  // ---------------------------------------------------------------- the round trip

  // What is not emitted comes back as the member initialiser.

  function InterfaceEmitted(i: Interface): Interface {
    i.(iInterface := UINT8_MAX)
  }

  function InterfacesEmitted(items: seq<Interface>): (r: seq<Interface>)
    ensures |r| == |items| && forall k :: 0 <= k < |r| ==> r[k] == InterfaceEmitted(items[k])
  {
    seq(|items|, k requires 0 <= k < |items| => InterfaceEmitted(items[k]))
  }

  function ConfigEmitted(c: Config): Config {
    c.(iConfiguration := UINT8_MAX, interfaces := InterfacesEmitted(c.interfaces))
  }

  function ConfigsEmitted(cs: seq<Config>): (r: seq<Config>)
    ensures |r| == |cs| && forall k :: 0 <= k < |r| ==> r[k] == ConfigEmitted(cs[k])
  {
    seq(|cs|, k requires 0 <= k < |cs| => ConfigEmitted(cs[k]))
  }

  function DeviceEmitted(d: Device): Device {
    d.(descConfigCount := UINT8_MAX, bMaxPacketSize0 := UINT8_MAX, bcdUSB := UINT16_MAX, bcdDevice := UINT16_MAX,
       iManufacturer := UINT8_MAX, iProduct := UINT8_MAX, iSerialNumber := UINT8_MAX,
       configs := ConfigsEmitted(d.configs))
  }

  lemma EndpointJsonRoundTrip(e: Endpoint)
    ensures EndpointFrom(EndpointJson(e)) == e
  {
  }

  // What stands under each name of a written endpoint, interface and configuration.

  lemma EndpointMembers(e: Endpoint)
    ensures var j := EndpointJson(e);
      && Member(j, Address) == Num(e.address) && Member(j, Attributes) == Num(e.attributes)
      && Member(j, Interval) == Num(e.interval) && Member(j, MaxPacketSize) == Num(e.maxPacketSize)
      && Member(j, InterfaceId) == Num(e.interfaceId)
      && Member(j, Direction) == Num(if e.address % 0x100 >= 0x80 then 0x80 else 0)
      && Member(j, Number) == Num(e.address % 0x10)
      && Member(j, Type) == Num(e.attributes % 4)
  {
    BitSeven(e.address);
  }

  lemma InterfaceMembers(i: Interface)
    ensures var j := InterfaceJson(i);
      && Member(j, Id) == Num(i.id) && Member(j, Protocol) == Num(i.protocol) && Member(j, Clazz) == Num(i.klass)
      && Member(j, SubClass) == Num(i.subClass) && Member(j, AlternateSetting) == Num(i.alternateSetting)
      && Member(j, Name) == Text(i.name)
      && Member(j, Endpoints) == if i.endpoints == [] then Null else Arr(EndpointsJson(i.endpoints))
  {
    hide EndpointJson;
  }

  lemma ConfigMembers(c: Config)
    ensures var j := ConfigJson(c);
      && Member(j, Id) == Num(c.id) && Member(j, Attributes) == Num(c.attributes)
      && Member(j, MaxPower) == Num(c.maxPower) && Member(j, Name) == Text(c.name)
      && Member(j, IsSelfPowered) == Flag(c.attributes % 0x100 >= 0x80)
      && Member(j, IsRemoteWakeup) == Flag(c.attributes % 0x40 >= 0x20)
      && Member(j, Interfaces) == if c.interfaces == [] then Null else Arr(InterfacesJson(c.interfaces))
  {
    hide InterfaceJson;
    BitSeven(c.attributes);
    BitFive(c.attributes);
  }

  /** The library's conversions: a number prints as itself, and truth values read as 1, 0, or their words. */
  lemma Conversions(n: int, b: bool)
    ensures n >= 0 ==> Decimal.Value(AsString(Num(n))) == n && AsString(Num(n))[0] != '-'
    ensures n < 0 ==> AsString(Num(n))[0] == '-' && Decimal.Value(AsString(Num(n))[1..]) == -n
    ensures -0x8000_0000 <= n < 0x8000_0000 ==> AsInt(Num(n)) == n
    ensures 0 <= n < 0x1_0000_0000 ==> AsUInt(Num(n)) == n
    ensures AsInt(Flag(b)) == AsUInt(Flag(b)) == (if b then 1 else 0)
    ensures AsString(Flag(true)) == "true" && AsString(Flag(false)) == "false"
    ensures AsInt(Null) == AsUInt(Null) == 0 && AsString(Null) == ""
  {
    hide Decimal.Digits, Decimal.Value;
    Decimal.DigitsReadBack(if n < 0 then -n else n);
  }

  /** What is not emitted comes back as 255 or 65535, whatever it was. */
  lemma NotEmitted(d: Device)
    ensures var r := DeviceFrom(DeviceJson(d));
      && r.descConfigCount == 255 && r.bMaxPacketSize0 == 255 && r.bcdUSB == 65535 && r.bcdDevice == 65535
      && r.iManufacturer == 255 && r.iProduct == 255 && r.iSerialNumber == 255
      && forall c :: c in r.configs ==>
           c.iConfiguration == 255 && forall i :: i in c.interfaces ==> i.iInterface == 255
  {
    DeviceJsonRoundTrip(d);
    hide DeviceFrom, DeviceJson;
  }

  lemma BitSeven(a: uint32)
    ensures a / 0x80 % 2 == 1 <==> a % 0x100 >= 0x80
  {
    var q, r := a / 0x100, a % 0x100;
    assert a / 0x80 == 2 * q + r / 0x80;
  }

  lemma BitFive(a: uint32)
    ensures a / 0x20 % 2 == 1 <==> a % 0x40 >= 0x20
  {
    var q, r := a / 0x40, a % 0x40;
    assert a / 0x20 == 2 * q + r / 0x20;
  }

  /** Direction and number together are the address iff it has no other bits; the type is what 4 leaves over. */
  lemma DerivedEndpointMembers(e: Endpoint)
    ensures AsUInt(Member(EndpointJson(e), Direction)) + AsUInt(Member(EndpointJson(e), Number)) == e.address
      <==> e.address < 0x10 || 0x80 <= e.address < 0x90
    ensures AsUInt(Member(EndpointJson(e), Type)) < 4
    ensures (e.attributes - AsUInt(Member(EndpointJson(e), Type))) % 4 == 0
  {
    EndpointMembers(e);
    hide EndpointJson, Member;
  }

  /** The two flags of a configuration are single bits of its attributes. */
  lemma DerivedConfigMembers(c: Config)
    ensures Member(ConfigJson(c), IsSelfPowered) == Flag(c.attributes % 0x100 >= 0x80)
    ensures Member(ConfigJson(c), IsRemoteWakeup) == Flag(c.attributes % 0x40 >= 0x20)
  {
    hide InterfacesJson, ListOf;
    BitSeven(c.attributes);
    BitFive(c.attributes);
  }

  lemma InterfaceJsonRoundTrip(i: Interface)
    ensures InterfaceFrom(InterfaceJson(i)) == InterfaceEmitted(i)
  {
    var js := EndpointsJson(i.endpoints);
    assert Elements(ListOf(js)) == js;
    forall k | 0 <= k < |js| ensures EndpointFrom(js[k]) == i.endpoints[k] {
      EndpointJsonRoundTrip(i.endpoints[k]);
    }
    hide EndpointJson, EndpointFrom;
    assert EndpointsFrom(js) == i.endpoints;
  }

  lemma ConfigJsonRoundTrip(c: Config)
    ensures ConfigFrom(ConfigJson(c)) == ConfigEmitted(c)
  {
    var js := InterfacesJson(c.interfaces);
    assert Elements(ListOf(js)) == js;
    hide InterfaceJson, InterfaceFrom, InterfaceEmitted;
    forall k | 0 <= k < |js| ensures InterfaceFrom(js[k]) == InterfaceEmitted(c.interfaces[k]) {
      InterfaceJsonRoundTrip(c.interfaces[k]);
    }
    assert InterfacesFrom(js) == InterfacesEmitted(c.interfaces);
  }

  // Every member of a written device reads as what was written.

  lemma DeviceNumberMembers(d: Device)
    ensures var j := DeviceJson(d);
      && Member(j, BusNum) == Num(d.busNum) && Member(j, DevAddress) == Num(d.devAddr)
      && Member(j, VendorId) == Num(d.vendorId) && Member(j, ProductId) == Num(d.productId)
      && Member(j, Clazz) == Num(d.klass) && Member(j, SubClass) == Num(d.subClass)
      && Member(j, Protocol) == Num(d.protocol)
  {
    hide ConfigsJson, ListOf;
  }

  lemma DeviceTextMembers(d: Device)
    ensures var j := DeviceJson(d);
      && Member(j, Serial) == Text(d.serial) && Member(j, Name) == Text(d.name)
      && Member(j, ManufacturerName) == Text(d.manufacturerName)
      && Member(j, ProductName) == Text(d.productName) && Member(j, Version) == Text(d.version)
      && Member(j, Configs) == if d.configs == [] then Null else Arr(ConfigsJson(d.configs))
  {
    hide ConfigJson;
  }

  lemma DeviceScalarsRoundTrip(d: Device)
    ensures DeviceFrom(DeviceJson(d)).(configs := []) == DeviceEmitted(d).(configs := [])
    ensures Member(DeviceJson(d), Configs) == ListOf(ConfigsJson(d.configs))
  {
    DeviceNumberMembers(d);
    DeviceTextMembers(d);
    hide ConfigJson, ConfigsFrom, ConfigsEmitted, Elements, DeviceJson, Member, Decimal.Digits;
  }

  lemma ConfigListRoundTrip(cs: seq<Config>)
    ensures ConfigsFrom(Elements(ListOf(ConfigsJson(cs)))) == ConfigsEmitted(cs)
  {
    hide ConfigJson, ConfigFrom, ConfigEmitted;
    var js := ConfigsJson(cs);
    assert Elements(ListOf(js)) == js;
    forall k | 0 <= k < |js| ensures ConfigFrom(js[k]) == ConfigEmitted(cs[k]) {
      ConfigJsonRoundTrip(cs[k]);
    }
  }

  /** Reading what ToJson wrote gives the device back, except for the members that are not emitted. */
  lemma DeviceJsonRoundTrip(d: Device)
    ensures DeviceFrom(DeviceJson(d)) == DeviceEmitted(d)
  {
    DeviceScalarsRoundTrip(d);
    ConfigListRoundTrip(d.configs);
    assert DeviceFrom(DeviceJson(d)).configs == ConfigsFrom(Elements(Member(DeviceJson(d), Configs)));
    hide DeviceFrom, DeviceJson;
    assert DeviceEmitted(d).configs == ConfigsEmitted(d.configs);
  }

  // ---------------------------------------------------------------- the two exports side by side

  /** Equal in everything both exports carry, the second one counting power in half the units. */
  ghost predicate SameConfig(json: Config, parcel: Config) {
    && json.id == parcel.id && json.attributes == parcel.attributes && json.name == parcel.name
    && parcel.maxPower == ToInt32(2 * json.maxPower)
    && |json.interfaces| == |parcel.interfaces|
    && forall k :: 0 <= k < |json.interfaces| ==>
         json.interfaces[k].(iInterface := 0) == parcel.interfaces[k].(iInterface := 0)
  }

  ghost predicate SameDevice(json: Device, parcel: Device) {
    && json.name == parcel.name && json.manufacturerName == parcel.manufacturerName
    && json.productName == parcel.productName && json.version == parcel.version && json.serial == parcel.serial
    && json.busNum == parcel.busNum && json.devAddr == parcel.devAddr && json.vendorId == parcel.vendorId
    && json.productId == parcel.productId && json.klass == parcel.klass && json.subClass == parcel.subClass
    && json.protocol == parcel.protocol && |json.configs| == |parcel.configs|
    && forall k :: 0 <= k < |json.configs| ==> SameConfig(json.configs[k], parcel.configs[k])
  }

  /** Every endpoint carries the low byte of its interface's id. */
  predicate IdsMatch(d: Device) {
    forall c :: c in d.configs ==> ConfigIdsMatch(c)
  }

  predicate ConfigIdsMatch(c: Config) {
    forall i :: i in c.interfaces ==> forall ep :: ep in i.endpoints ==> ep.interfaceId == ToByte(i.id)
  }

  lemma ConfigExportsAgree(c: Config)
    ensures SameConfig(ConfigEmitted(c), ConfigSeen(c)) <==> ConfigIdsMatch(c)
  {
  }

  /**
   What a broadcast listener rebuilds from JSON and what a client reads from the parcel agree in all
   they share, with the power doubled in the parcel, iff every endpoint carries its interface's id.
   */
  lemma ExportsAgree(d: Device)
    ensures SameDevice(DeviceFrom(DeviceJson(d)), DeviceSeen(d)) <==> IdsMatch(d)
  {
    DeviceJsonRoundTrip(d);
    hide DeviceFrom, DeviceJson, ConfigEmitted, ConfigSeen, SameConfig, ConfigIdsMatch;
    var a, b := ConfigsEmitted(d.configs), ConfigsSeen(d.configs);
    forall k | 0 <= k < |d.configs| ensures SameConfig(a[k], b[k]) <==> ConfigIdsMatch(d.configs[k]) {
      ConfigExportsAgree(d.configs[k]);
    }
    if SameDevice(DeviceEmitted(d), DeviceSeen(d)) {
      forall c | c in d.configs ensures ConfigIdsMatch(c) {
        var k :| 0 <= k < |d.configs| && d.configs[k] == c;
        assert SameConfig(a[k], b[k]);
      }
    }
    if IdsMatch(d) {
      forall k | 0 <= k < |d.configs| ensures SameConfig(a[k], b[k]) {
        assert d.configs[k] in d.configs;
      }
    }
  }

  lemma SoundExportsAgree(d: Device)
    requires Sound(d)
    ensures SameDevice(DeviceFrom(DeviceJson(d)), DeviceSeen(d))
  {
    hide DeviceFrom, DeviceJson, SameDevice;
    forall c | c in d.configs ensures ConfigIdsMatch(c) {
      assert SoundConfig(c);
      assert forall i :: i in c.interfaces ==> SoundInterface(i);
    }
    ExportsAgree(d);
  }

  /** So they agree for every device the service describes. */
  lemma DescribedExportsAgree(bus: byte, addr: byte, u: Usbd)
    requires Describe(bus, addr, u).Known?
    ensures var d := Describe(bus, addr, u).device;
      SameDevice(DeviceFrom(DeviceJson(d)), DeviceSeen(d))
  {
    hide Describe, DeviceFrom, DeviceJson, SameDevice;
    DescribedIsSound(bus, addr, u);
    SoundExportsAgree(Describe(bus, addr, u).device);
  }
}
