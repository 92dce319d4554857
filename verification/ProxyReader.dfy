/**
 The client side of the device list call: four nested readers. Results of inner readers and of two
 count reads are ignored, as in the source; a failed read leaves an arbitrary value. On rows that a
 writer produced they return what DeviceCodec says.
 */
module ProxyReader {
  import opened Machine
  import opened DeviceTree
  import opened Parcels
  import opened DeviceCodec

  function EndpointRead(s: seq<Cell>): Endpoint
    requires EndpointShape(s)
  {
    DEFAULT_ENDPOINT.(address := s[0].w, attributes := s[1].w,
                      interval := ToInt32(s[2].w), maxPacketSize := ToInt32(s[3].w))
  }

  /** The four words of one endpoint. */
  method ReadEndpoint(data: MessageParcel) returns (code: Code, ep: Endpoint)
    requires data.Valid()
    modifies data`pos
    ensures data.Valid()
    ensures var s := old(data.Unread());
      if EndpointShape(s) then code == UecOk && data.pos == old(data.pos) + 4 && ep == EndpointRead(s)
      else code == UecServiceReadParcelError
  {
    hide ToInt32;
    code, ep := UecServiceReadParcelError, DEFAULT_ENDPOINT;
    ghost var s, p := data.Unread(), data.pos;
    assert forall k :: 0 <= k < |s| ==> s[k] == data.cells[k + p];
    var ok, bits, word;
    ok, bits := data.ReadUint32();
    if !ok { return; }
    ep := ep.(address := bits);
    ok, bits := data.ReadUint32();
    if !ok { return; }
    ep := ep.(attributes := bits);
    ok, word := data.ReadInt32();
    if !ok { return; }
    ep := ep.(interval := word);
    ok, word := data.ReadInt32();
    if !ok { return; }
    ep := ep.(maxPacketSize := word);
    code := UecOk;
  }

  method GetDeviceEndpointsMessageParcel(data: MessageParcel) returns (code: Code, eps: seq<Endpoint>)
    requires data.Valid()
    modifies data`pos
    ensures data.Valid()
    ensures var d := DecodeEndpoints(old(data.Unread()));
      d.Got? ==> code == UecOk && eps == d.value && data.Unread() == d.rest
  {
    hide DecodeEndpointRun, EndpointShape, EndpointRead;
    ghost var whole := DecodeEndpoints(data.Unread());
    eps := [];
    var ok, epCount := data.ReadInt32();
    if !ok {
      return UecServiceReadParcelError, eps;
    }
    ghost var left := Times(epCount);
    for i := 0 to Times(epCount)
      invariant left == Times(epCount) - i
      invariant data.Valid()
      invariant whole.Got? ==> whole == DecodeEndpointRun(data.Unread(), left, eps)
    {
      ghost var s := data.Unread();
      if whole.Got? {
        EndpointRunStep(s, left, eps);
      }
      var ep;
      code, ep := ReadEndpoint(data);
      if code != UecOk {
        return;
      }
      eps := eps + [ep];
      assert data.Unread() == s[4..];
      left := left - 1;
    }
    EndpointRunDone(data.Unread(), eps);
    code := UecOk;
  }

  /** What a decodable run of endpoints starts with, and what is left of it. */
  lemma EndpointRunStep(s: seq<Cell>, n: nat, eps: seq<Endpoint>)
    requires n > 0 && DecodeEndpointRun(s, n, eps).Got?
    ensures EndpointShape(s)
    ensures DecodeEndpointRun(s, n, eps) == DecodeEndpointRun(s[4..], n - 1, eps + [EndpointRead(s)])
  {
  }

  /** The interface id does not travel with an endpoint; the reader puts it back. */
  method SetInterfaceIds(read: seq<Endpoint>, id: int32) returns (eps: seq<Endpoint>)
    ensures eps == Own(read, id)
  {
    eps := read;
    for j := 0 to |eps|
      invariant |eps| == |read|
      invariant forall k :: 0 <= k < j ==> eps[k] == read[k].(interfaceId := ToByte(id))
      invariant forall k :: j <= k < |eps| ==> eps[k] == read[k]
    {
      eps := eps[j := eps[j].(interfaceId := ToByte(id))];
    }
  }

  function FieldsRead(s: seq<Cell>): Interface
    requires InterfaceShape(s)
  {
    DEFAULT_INTERFACE.(
      id := ToInt32(s[0].w), klass := ToInt32(s[1].w), subClass := ToInt32(s[2].w),
      alternateSetting := ToInt32(s[3].w), protocol := ToInt32(s[4].w), iInterface := s[5].b, name := s[6].s)
  }

  /** The scalar fields of one interface, up to its endpoint count. */
  method ReadInterfaceFields(data: MessageParcel) returns (code: Code, itf: Interface)
    requires data.Valid()
    modifies data`pos
    ensures data.Valid()
    ensures var s := old(data.Unread());
      if InterfaceShape(s) then
        && code == UecOk && data.pos == old(data.pos) + 7
        && itf == FieldsRead(s)
      else code != UecOk
  {
    hide ToInt32;
    code, itf := UecServiceReadParcelError, DEFAULT_INTERFACE;
    ghost var s, p := data.Unread(), data.pos;
    assert forall k :: 0 <= k < |s| ==> s[k] == data.cells[k + p];
    var ok, word, octet, text;
    ok, word := data.ReadInt32();
    if !ok { return; }
    itf := itf.(id := word);
    ok, word := data.ReadInt32();
    if !ok { return; }
    itf := itf.(klass := word);
    ok, word := data.ReadInt32();
    if !ok { return; }
    itf := itf.(subClass := word);
    ok, word := data.ReadInt32();
    if !ok { return; }
    itf := itf.(alternateSetting := word);
    ok, word := data.ReadInt32();
    if !ok { return; }
    itf := itf.(protocol := word);
    ok, octet := data.ReadUint8();
    if !ok { return; }
    itf := itf.(iInterface := octet);
    ok, text := data.ReadString();
    if !ok { return; }
    itf := itf.(name := text);
    code := UecOk;
  }

  method GetDeviceInterfacesMessageParcel(data: MessageParcel) returns (code: Code, interfaces: seq<Interface>)
    requires data.Valid()
    modifies data`pos
    ensures data.Valid()
    ensures var d := DecodeInterfaces(old(data.Unread()));
      d.Got? ==> code == UecOk && interfaces == d.value && data.Unread() == d.rest
  {
    hide DecodeEndpoints, DecodeInterfaceRun, InterfaceRead, InterfaceShape, Own;
    ghost var whole := DecodeInterfaces(data.Unread());
    interfaces := [];
    var ok, interfaceCount := data.ReadInt32();
    ghost var left := Times(interfaceCount);
    for i := 0 to Times(interfaceCount)
      invariant left == Times(interfaceCount) - i
      invariant data.Valid()
      invariant whole.Got? ==> whole == DecodeInterfaceRun(data.Unread(), left, interfaces)
    {
      ghost var s := data.Unread();
      if whole.Got? {
        InterfaceRunStep(s, left, interfaces);
      }
      var itf, eps;
      code, itf := ReadInterfaceFields(data);
      if code != UecOk {
        return;
      }
      assert data.Unread() == s[7..];
      code, eps := GetDeviceEndpointsMessageParcel(data);
      if code != UecOk {
        return;
      }
      FieldsAndEndpoints(s, itf, eps);
      eps := SetInterfaceIds(eps, itf.id);
      itf := itf.(endpoints := eps);
      interfaces := interfaces + [itf];
      left := left - 1;
    }
    InterfaceRunDone(data.Unread(), interfaces);
    code := UecOk;
  }

  /** What a decodable run of interfaces starts with, and what is left of it. */
  lemma InterfaceRunStep(s: seq<Cell>, n: nat, items: seq<Interface>)
    requires n > 0 && DecodeInterfaceRun(s, n, items).Got?
    ensures InterfaceShape(s) && DecodeEndpoints(s[7..]).Got?
    ensures var e := DecodeEndpoints(s[7..]);
      DecodeInterfaceRun(s, n, items) == DecodeInterfaceRun(e.rest, n - 1, items + [InterfaceRead(s, e.value)])
  {
  }

  lemma FieldsAndEndpoints(s: seq<Cell>, itf: Interface, eps: seq<Endpoint>)
    requires InterfaceShape(s) && itf == FieldsRead(s)
    ensures itf.(endpoints := Own(eps, itf.id)) == InterfaceRead(s, eps)
  {
  }

  function ConfigFieldsRead(s: seq<Cell>): Config
    requires ConfigShape(s)
  {
    DEFAULT_CONFIG.(id := ToInt32(s[0].w), attributes := s[1].w, maxPower := ToInt32(s[2].w),
                    iConfiguration := s[3].b, name := s[4].s)
  }

  /** The scalar fields of one configuration, up to its interface count. */
  method ReadConfigFields(data: MessageParcel) returns (code: Code, config: Config)
    requires data.Valid()
    modifies data`pos
    ensures data.Valid()
    ensures var s := old(data.Unread());
      if ConfigShape(s) then code == UecOk && data.pos == old(data.pos) + 5 && config == ConfigFieldsRead(s)
      else code == UecServiceReadParcelError
  {
    hide ToInt32;
    code, config := UecServiceReadParcelError, DEFAULT_CONFIG;
    ghost var s, p := data.Unread(), data.pos;
    assert forall k :: 0 <= k < |s| ==> s[k] == data.cells[k + p];
    var ok, word, attributes, octet, text;
    ok, word := data.ReadInt32();
    if !ok { return; }
    config := config.(id := word);
    ok, attributes := data.ReadUint32();
    if !ok { return; }
    config := config.(attributes := attributes);
    ok, word := data.ReadInt32();
    if !ok { return; }
    config := config.(maxPower := word);
    ok, octet := data.ReadUint8();
    if !ok { return; }
    config := config.(iConfiguration := octet);
    ok, text := data.ReadString();
    if !ok { return; }
    config := config.(name := text);
    code := UecOk;
  }

  method GetDeviceConfigsMessageParcel(data: MessageParcel) returns (code: Code, configs: seq<Config>)
    requires data.Valid()
    modifies data`pos
    ensures data.Valid()
    ensures var d := DecodeConfigs(old(data.Unread()));
      d.Got? ==> code == UecOk && configs == d.value && data.Unread() == d.rest
  {
    hide DecodeInterfaces, DecodeConfigRun, ConfigShape, ConfigFieldsRead;
    ghost var whole := DecodeConfigs(data.Unread());
    configs := [];
    var ok, configCount := data.ReadUint32();
    ghost var left := configCount;
    for i := 0 to configCount
      invariant left == configCount - i
      invariant data.Valid()
      invariant whole.Got? ==> whole == DecodeConfigRun(data.Unread(), left, configs)
    {
      ghost var s := data.Unread();
      if whole.Got? {
        ConfigRunStep(s, left, configs);
      }
      var config, interfaces;
      code, config := ReadConfigFields(data);
      if code != UecOk {
        return;
      }
      assert data.Unread() == s[5..];
      code, interfaces := GetDeviceInterfacesMessageParcel(data);
      if code != UecOk {
        return;
      }
      config := config.(interfaces := interfaces);
      configs := configs + [config];
      left := left - 1;
    }
    ConfigRunDone(data.Unread(), configs);
    code := UecOk;
  }

  /** What a decodable run of configurations starts with, and what is left of it. */
  lemma ConfigRunStep(s: seq<Cell>, n: nat, cs: seq<Config>)
    requires n > 0 && DecodeConfigRun(s, n, cs).Got?
    ensures ConfigShape(s) && DecodeInterfaces(s[5..]).Got?
    ensures var items := DecodeInterfaces(s[5..]);
      DecodeConfigRun(s, n, cs)
      == DecodeConfigRun(items.rest, n - 1, cs + [ConfigFieldsRead(s).(interfaces := items.value)])
  {
  }

  /** The seven words of one device. */
  method ReadDeviceNumbers(data: MessageParcel, dev: Device) returns (code: Code, d: Device)
    requires data.Valid()
    modifies data`pos
    ensures data.Valid()
    ensures var p, s := old(data.pos), data.cells;
      if p + 7 <= |s| && s[p].Word? && s[p + 1].Word? && s[p + 2].Word? && s[p + 3].Word?
         && s[p + 4].Word? && s[p + 5].Word? && s[p + 6].Word? then
        && code == UecOk && data.pos == p + 7
        && d == dev.(busNum := ToByte(ToInt32(s[p].w)), devAddr := ToByte(ToInt32(s[p + 1].w)),
                    vendorId := ToInt32(s[p + 2].w), productId := ToInt32(s[p + 3].w), klass := ToInt32(s[p + 4].w),
                    subClass := ToInt32(s[p + 5].w), protocol := ToInt32(s[p + 6].w))
      else code != UecOk
  {
    hide ToInt32, ToByte;
    code, d := UecServiceReadParcelError, dev;
    var ok, word;
    ok, word := data.ReadInt32();
    if !ok { return; }
    d := d.(busNum := ToByte(word));
    ok, word := data.ReadInt32();
    if !ok { return; }
    d := d.(devAddr := ToByte(word));
    ok, word := data.ReadInt32();
    if !ok { return; }
    d := d.(vendorId := word);
    ok, word := data.ReadInt32();
    if !ok { return; }
    d := d.(productId := word);
    ok, word := data.ReadInt32();
    if !ok { return; }
    d := d.(klass := word);
    ok, word := data.ReadInt32();
    if !ok { return; }
    d := d.(subClass := word);
    ok, word := data.ReadInt32();
    if !ok { return; }
    d := d.(protocol := word);
    code := UecOk;
  }

  /** The byte and half-word fields of one device. */
  method ReadDeviceBytes(data: MessageParcel, dev: Device) returns (code: Code, d: Device)
    requires data.Valid()
    modifies data`pos
    ensures data.Valid()
    ensures var p, s := old(data.pos), data.cells;
      if p + 6 <= |s| && s[p].Octet? && s[p + 1].Octet? && s[p + 2].Octet? && s[p + 3].Octet?
         && s[p + 4].Half? && s[p + 5].Half? then
        && code == UecOk && data.pos == p + 6
        && d == dev.(iManufacturer := s[p].b, iProduct := s[p + 1].b, iSerialNumber := s[p + 2].b,
                    bMaxPacketSize0 := s[p + 3].b, bcdUSB := s[p + 4].h, bcdDevice := s[p + 5].h)
      else code != UecOk
  {
    hide ToInt32, ToByte;
    code, d := UecServiceReadParcelError, dev;
    var ok, octet, half;
    ok, octet := data.ReadUint8();
    if !ok { return; }
    d := d.(iManufacturer := octet);
    ok, octet := data.ReadUint8();
    if !ok { return; }
    d := d.(iProduct := octet);
    ok, octet := data.ReadUint8();
    if !ok { return; }
    d := d.(iSerialNumber := octet);
    ok, octet := data.ReadUint8();
    if !ok { return; }
    d := d.(bMaxPacketSize0 := octet);
    ok, half := data.ReadUint16();
    if !ok { return; }
    d := d.(bcdUSB := half);
    ok, half := data.ReadUint16();
    if !ok { return; }
    d := d.(bcdDevice := half);
    code := UecOk;
  }

  /** The five strings of one device. */
  method ReadDeviceStrings(data: MessageParcel, dev: Device) returns (code: Code, d: Device)
    requires data.Valid()
    modifies data`pos
    ensures data.Valid()
    ensures var p, s := old(data.pos), data.cells;
      if p + 5 <= |s| && s[p].Str? && s[p + 1].Str? && s[p + 2].Str? && s[p + 3].Str? && s[p + 4].Str? then
        && code == UecOk && data.pos == p + 5
        && d == dev.(name := s[p].s, manufacturerName := s[p + 1].s, productName := s[p + 2].s,
                    version := s[p + 3].s, serial := s[p + 4].s)
      else code != UecOk
  {
    hide ToInt32, ToByte;
    code, d := UecServiceReadParcelError, dev;
    var ok, text;
    ok, text := data.ReadString();
    if !ok { return; }
    d := d.(name := text);
    ok, text := data.ReadString();
    if !ok { return; }
    d := d.(manufacturerName := text);
    ok, text := data.ReadString();
    if !ok { return; }
    d := d.(productName := text);
    ok, text := data.ReadString();
    if !ok { return; }
    d := d.(version := text);
    ok, text := data.ReadString();
    if !ok { return; }
    d := d.(serial := text);
    code := UecOk;
  }

  method GetDeviceMessageParcel(data: MessageParcel, dev: Device) returns (code: Code, d: Device)
    requires data.Valid() && dev.descConfigCount == UINT8_MAX
    modifies data`pos
    ensures data.Valid()
    ensures var r := DecodeDevice(old(data.Unread()));
      r.Got? ==> code == UecOk && d == r.value && data.Unread() == r.rest
  {
    hide DecodeConfigs, ToInt32, ToByte;
    ghost var s, p := data.Unread(), data.pos;
    assert forall k :: 0 <= k < |s| ==> s[k] == data.cells[k + p];
    code, d := ReadDeviceNumbers(data, dev);
    if code != UecOk {
      return;
    }
    code, d := ReadDeviceBytes(data, d);
    if code != UecOk {
      return;
    }
    code, d := ReadDeviceStrings(data, d);
    if code != UecOk {
      return;
    }
    var configs;
    assert DeviceShape(s) && data.Unread() == s[18..];

    var ignored;
    ignored, configs := GetDeviceConfigsMessageParcel(data);
    d := d.(configs := configs);
    code := UecOk;
  }

  /** The freshly constructed device: what its constructor leaves open is arbitrary. */
  method NewDevice() returns (d: Device)
    ensures d.descConfigCount == UINT8_MAX && d.configs == []
  {
    var other: Device := *;
    d := other.(name := "", manufacturerName := "", productName := "", version := "", serial := "",
                descConfigCount := UINT8_MAX, bMaxPacketSize0 := UINT8_MAX, bcdUSB := UINT16_MAX,
                bcdDevice := UINT16_MAX, iManufacturer := UINT8_MAX, iProduct := UINT8_MAX,
                iSerialNumber := UINT8_MAX, configs := []);
  }

  /** The list call; it fails iff not even a count can be read, and else returns as many devices as counted. */
  method GetDeviceListMessageParcel(data: MessageParcel) returns (code: Code, deviceList: seq<Device>)
    requires data.Valid()
    modifies data`pos
    ensures data.Valid()
    ensures var s := old(data.Unread());
      if s != [] && s[0].Word? then code == UecOk else code == UecServiceReadParcelError && deviceList == []
    ensures var s := old(data.Unread());
      code == UecOk ==> |deviceList| == Times(ToInt32(s[0].w))
    ensures var r := DecodeDevices(old(data.Unread()));
      r.Got? ==> code == UecOk && deviceList == r.value && data.Unread() == r.rest
  {
    hide DecodeDevice;
    ghost var whole := DecodeDevices(data.Unread());
    deviceList := [];
    var ok, count := data.ReadInt32();
    if !ok {
      return UecServiceReadParcelError, deviceList;
    }
    ghost var left := Times(count);
    for i := 0 to Times(count)
      invariant left == Times(count) - i
      invariant data.Valid() && |deviceList| == i
      invariant whole.Got? ==> whole == DecodeDeviceRun(data.Unread(), left, deviceList)
    {
      var devInfo := NewDevice();
      var ignored;
      ignored, devInfo := GetDeviceMessageParcel(data, devInfo);
      deviceList := deviceList + [devInfo];
      left := left - 1;
    }
    code := UecOk;
  }
}
