/** The service side of the device list call: four nested writers, each stopping at the first refused write. */
module StubWriter {
  import opened Machine
  import opened DeviceTree
  import opened Parcels
  import opened DeviceCodec

  ghost predicate Written(before: seq<Cell>, cells: seq<Cell>, data: MessageParcel, code: Code)
    reads data
  {
    && data.Valid()
    && data.cells == Fill(before, cells, data.room)
    && code == (if Fits(before, cells, data.room) then UecOk else UecServiceWriteParcelError)
  }

  /** The first check of every request: it must begin with the name of the service's interface. */
  method CheckInterfaceToken(data: MessageParcel) returns (code: Code)
    requires data.Valid()
    modifies data`pos
    ensures data.Valid()
    ensures var s := old(data.Unread());
      if s != [] && s[0] == Str("ohos.usb.IUsbSrv") then code == UecOk && data.Unread() == s[1..]
      else code == UecServiceInnerErr
  {
    var ok, remoteDescriptor := data.ReadString();
    code := if ok && remoteDescriptor == IUSB_SRV then UecOk else UecServiceInnerErr;
  }

  /** Writing the rest now has the same effect as the whole from the start. */
  ghost predicate SameEffect(before: seq<Cell>, whole: seq<Cell>, now: seq<Cell>, rest: seq<Cell>, room: nat) {
    Fill(now, rest, room) == Fill(before, whole, room) && (Fits(now, rest, room) <==> Fits(before, whole, room))
  }

  lemma FillNothing(now: seq<Cell>, room: nat)
    requires |now| <= room
    ensures Fill(now, [], room) == now && Fits(now, [], room)
  {
  }

  /** After writing a, either b is what is left to write, or the effect of the whole is reached. */
  lemma WriteThen(before: seq<Cell>, whole: seq<Cell>, now: seq<Cell>, a: seq<Cell>, b: seq<Cell>, room: nat)
    requires SameEffect(before, whole, now, a + b, room)
    ensures Fits(now, a, room) ==> SameEffect(before, whole, Fill(now, a, room), b, room)
    ensures !Fits(now, a, room) ==>
      Fill(now, a, room) == Fill(before, whole, room) && !Fits(before, whole, room)
  {
  }

  method SetDeviceEndpointsMessageParcel(eps: seq<Endpoint>, data: MessageParcel) returns (code: Code)
    requires data.Valid()
    modifies data`cells
    ensures Written(old(data.cells), EncodeEndpoints(eps), data, code)
  {
    hide Fill, Fits;
    ghost var before, whole := data.cells, EncodeEndpoints(eps);
    assert eps[0..] == eps;
    for k := 0 to |eps|
      invariant data.Valid()
      invariant SameEffect(before, whole, data.cells, EncodeEndpoints(eps[k..]), data.room)
    {
      var ep := eps[k];
      assert eps[k..][1..] == eps[k + 1..];
      WriteThen(before, whole, data.cells, EncodeEndpoint(ep), EncodeEndpoints(eps[k + 1..]), data.room);
      code := data.WriteRun([Word(ep.address), Word(ep.attributes), IntCell(ep.interval), IntCell(ep.maxPacketSize)]);
      if code != UecOk {
        return;
      }
    }
    FillNothing(data.cells, data.room);
    code := UecOk;
  }

  method SetDeviceInterfacesMessageParcel(interfaces: seq<Interface>, data: MessageParcel) returns (code: Code)
    requires data.Valid()
    modifies data`cells
    ensures Written(old(data.cells), EncodeInterfaces(interfaces), data, code)
  {
    hide Fill, Fits, EncodeEndpoints;
    ghost var before, whole := data.cells, EncodeInterfaces(interfaces);
    assert interfaces[0..] == interfaces;
    for k := 0 to |interfaces|
      invariant data.Valid()
      invariant SameEffect(before, whole, data.cells, EncodeInterfaces(interfaces[k..]), data.room)
    {
      var itf := interfaces[k];
      ghost var now, a, b := data.cells, InterfaceCells(itf), EncodeEndpoints(itf.endpoints);
      assert interfaces[k..][1..] == interfaces[k + 1..];
      WriteThen(before, whole, now, a + b, EncodeInterfaces(interfaces[k + 1..]), data.room);
      FillTwice(now, a, b, data.room);
      code := data.WriteRun([IntCell(itf.id), IntCell(itf.klass), IntCell(itf.subClass),
                             IntCell(itf.alternateSetting), IntCell(itf.protocol),
                             Octet(itf.iInterface), Str(itf.name), IntCell(ToInt32(|itf.endpoints|))]);
      if code != UecOk {
        return;
      }
      code := SetDeviceEndpointsMessageParcel(itf.endpoints, data);
      if code != UecOk {
        return;
      }
    }
    FillNothing(data.cells, data.room);
    code := UecOk;
  }

  method SetDeviceConfigsMessageParcel(configs: seq<Config>, data: MessageParcel) returns (code: Code)
    requires data.Valid()
    modifies data`cells
    ensures Written(old(data.cells), EncodeConfigs(configs), data, code)
  {
    hide Fill, Fits, EncodeInterfaces;
    ghost var before, whole := data.cells, EncodeConfigs(configs);
    assert configs[0..] == configs;
    for k := 0 to |configs|
      invariant data.Valid()
      invariant SameEffect(before, whole, data.cells, EncodeConfigs(configs[k..]), data.room)
    {
      var config := configs[k];
      ghost var now, a, b := data.cells, ConfigCells(config), EncodeInterfaces(config.interfaces);
      assert configs[k..][1..] == configs[k + 1..];
      WriteThen(before, whole, now, a + b, EncodeConfigs(configs[k + 1..]), data.room);
      FillTwice(now, a, b, data.room);
      code := data.WriteRun([IntCell(config.id), Word(config.attributes), IntCell(GetMaxPower(config)),
                             Octet(config.iConfiguration), Str(config.name), Word(ToUint32(|config.interfaces|))]);
      if code != UecOk {
        return;
      }
      code := SetDeviceInterfacesMessageParcel(config.interfaces, data);
      if code != UecOk {
        return;
      }
    }
    FillNothing(data.cells, data.room);
    code := UecOk;
  }

  method SetDeviceMessageParcel(devInfo: Device, data: MessageParcel) returns (code: Code)
    requires data.Valid()
    modifies data`cells
    ensures Written(old(data.cells), EncodeDevice(devInfo), data, code)
  {
    hide Fill, Fits, EncodeConfigs;
    FillTwice(data.cells, DeviceCells(devInfo), EncodeConfigs(devInfo.configs), data.room);
    code := data.WriteRun([
      IntCell(devInfo.busNum), IntCell(devInfo.devAddr),
      IntCell(devInfo.vendorId), IntCell(devInfo.productId), IntCell(devInfo.klass),
      IntCell(devInfo.subClass), IntCell(devInfo.protocol),
      Octet(devInfo.iManufacturer), Octet(devInfo.iProduct), Octet(devInfo.iSerialNumber),
      Octet(devInfo.bMaxPacketSize0), Half(devInfo.bcdUSB), Half(devInfo.bcdDevice),
      Str(devInfo.name), Str(devInfo.manufacturerName), Str(devInfo.productName),
      Str(devInfo.version), Str(devInfo.serial), IntCell(ToInt32(|devInfo.configs|))]);
    if code != UecOk {
      return;
    }
    code := SetDeviceConfigsMessageParcel(devInfo.configs, data);
  }

  /** The whole list, or as much of it as the parcel takes together with the error code. */
  method SetDeviceListMessageParcel(deviceList: seq<Device>, data: MessageParcel) returns (code: Code)
    requires data.Valid()
    modifies data`cells
    ensures Written(old(data.cells), EncodeDevices(deviceList), data, code)
  {
    hide Fill, Fits, EncodeDevice;
    var deviceCount: int32 := ToInt32(|deviceList|);
    ghost var before, whole, sent := data.cells, EncodeDevices(deviceList), Counted(deviceList);
    FillTwice(before, [IntCell(deviceCount)], EncodeRun(sent), data.room);
    code := data.WriteRun([IntCell(deviceCount)]);
    if code != UecOk {
      return;
    }
    assert sent[0..] == sent;
    for i := 0 to Times(deviceCount)
      invariant data.Valid()
      invariant SameEffect(before, whole, data.cells, EncodeRun(sent[i..]), data.room)
    {
      var devInfo := deviceList[i];
      assert sent[i..][0] == devInfo && sent[i..][1..] == sent[i + 1..];
      WriteThen(before, whole, data.cells, EncodeDevice(devInfo), EncodeRun(sent[i + 1..]), data.room);
      code := SetDeviceMessageParcel(devInfo, data);
      if code != UecOk {
        return;
      }
    }
    FillNothing(data.cells, data.room);
    code := UecOk;
  }
}
