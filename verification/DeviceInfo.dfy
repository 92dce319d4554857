/** From usbd's answers on an attach to the description of the device. */
module DeviceInfo {
  import opened Machine
  import opened DeviceTree
  import opened Text
  import opened DescriptorSpec
  import opened DescriptorParser
  import opened DeviceStrings

  const CURSOR_INIT: uint32 := 18

  /** usbd's answers for one device: to the open call, to the raw descriptor call, and to string calls. */
  datatype Usbd = Usbd(openCode: Code, rawCode: Code, raw: seq<byte>, strings: StringTable)

  datatype Info =
    | Known(device: Device)
    | Refused(code: Code)
    | Broken(hazard: Hazard)

  /** The configurations the driver loop collects from the whole raw descriptor of a device. */
  function ConfigDescriptor(dev: Device, raw: seq<byte>, table: StringTable): Info {
    match ParseConfigs(raw, DescConfigCount(dev), CURSOR_INIT, [])
    case Undefined(h) => Broken(h)
    case Returned(code, configs, _) =>
      if code != UecOk then Info.Refused(code) else Known(NameDevice(dev.(configs := configs), table))
  }

  /** The device part: bus, address and name are set only once there is a descriptor to look at. */
  function FillDevice(bus: byte, addr: byte, u: Usbd, dev: Device): Device {
    if u.rawCode != UecOk || u.raw == [] then dev
    else ParseDevice(u.raw, dev.(busNum := bus, devAddr := addr, name := DeviceName(bus, addr))).1
  }

  /** On an attach the object starts out cleared. */
  function DescribeDevice(bus: byte, addr: byte, u: Usbd): Device {
    FillDevice(bus, addr, u, CLEARED_DEVICE)
  }

  /** GetDeviceInfo: the code of the device part is overwritten by that of the configuration part. */
  function Describe(bus: byte, addr: byte, u: Usbd): Info {
    if u.openCode != UecOk then Info.Refused(u.openCode)
    else ConfigDescriptor(DescribeDevice(bus, addr, u), u.raw, u.strings)
  }

  method GetConfigDescriptor(dev: Device, descriptor: array<byte>, table: StringTable) returns (r: Info)
    requires descriptor.Length <= MAX_LENGTH
    ensures r == ConfigDescriptor(dev, descriptor[..], table)
  {
    hide ParseConfig, NameDevice;
    var configs: seq<Config> := [];
    var length: uint32 := descriptor.Length;
    var cursor: uint32 := CURSOR_INIT;
    var count := DescConfigCount(dev);
    ghost var raw := descriptor[..];
    ghost var whole := ParseConfigs(raw, count, CURSOR_INIT, []);
    var i := 0;
    while i < count
      invariant i <= count <= 1 && cursor <= CURSOR_INIT + length
      invariant whole == ParseConfigs(raw, count - i, cursor, configs)
    {
      if length <= cursor {
        break;
      }
      assert raw[cursor..] == descriptor[cursor..];
      var c := ParseConfigDescriptor(descriptor, cursor, length - cursor);
      if c.Undefined? {
        return Broken(c.hazard);
      }
      if c.code != UecOk {
        return Info.Refused(c.code);
      }
      cursor := cursor + c.used;
      configs := configs + [c.value];
      i := i + 1;
    }
    assert whole == Returned(UecOk, configs, cursor);
    var d := dev.(configs := configs);
    var ret;
    ret, d := FillDevStrings(d, table);
    r := Known(d);
  }

  method GetDeviceInfoDescriptor(bus: byte, addr: byte, u: Usbd, descriptor: array<byte>, dev: Device)
    returns (code: Code, d: Device)
    requires u.rawCode == UecOk ==> descriptor[..] == u.raw
    requires descriptor.Length <= MAX_LENGTH
    ensures d == FillDevice(bus, addr, u, dev)
    ensures code == if u.rawCode != UecOk then u.rawCode else ParseDevice(u.raw, dev).0
  {
    d := dev;
    if u.rawCode != UecOk {
      return u.rawCode, d;
    }
    var length: uint32 := descriptor.Length;
    if length == 0 {
      return UecServiceInvalidValue, d;
    }
    d := d.(busNum := bus);
    d := d.(devAddr := addr);
    d := d.(name := Digits(bus) + "-" + Digits(addr));
    code, d := ParseDeviceDescriptor(descriptor, length, d);
  }

  method GetDeviceInfo(bus: byte, addr: byte, u: Usbd) returns (r: Info)
    requires |u.raw| <= MAX_LENGTH
    ensures r == Describe(bus, addr, u)
  {
    if u.openCode != UecOk {
      return Info.Refused(u.openCode);
    }
    var descriptor := new byte[|u.raw|](i requires 0 <= i < |u.raw| => u.raw[i]);
    assert descriptor[..] == u.raw;
    var code, d := GetDeviceInfoDescriptor(bus, addr, u, descriptor, CLEARED_DEVICE);
    r := GetConfigDescriptor(d, descriptor, u.strings);
  }

  /** Whatever the descriptor says, at most one configuration is reported. */
  lemma AtMostOneConfiguration(bus: byte, addr: byte, u: Usbd)
    requires Describe(bus, addr, u).Known?
    ensures |Describe(bus, addr, u).device.configs| <= 1
  {
  }

  /** A description carries its own bus and address iff usbd handed out a descriptor, or they are zero anyway. */
  lemma DescribedUnderOwnName(bus: byte, addr: byte, u: Usbd)
    requires Describe(bus, addr, u).Known?
    ensures var d := Describe(bus, addr, u).device;
      (d.busNum == bus && d.devAddr == addr) <==> ((u.rawCode == UecOk && u.raw != []) || (bus == 0 && addr == 0))
  {
  }

  /** A device descriptor that is refused does not stop the attach: the device is known, with nothing but its name. */
  lemma RefusedDescriptorStillKnown(bus: byte, addr: byte, u: Usbd)
    requires u.openCode == UecOk && u.rawCode == UecOk && u.raw != []
    requires ParseDevice(u.raw, CLEARED_DEVICE).0 != UecOk
    ensures Describe(bus, addr, u)
      == Known(NameDevice(CLEARED_DEVICE.(busNum := bus, devAddr := addr, name := DeviceName(bus, addr)), u.strings))
  {
    hide NameDevice, DeviceName;
    var named := CLEARED_DEVICE.(busNum := bus, devAddr := addr, name := DeviceName(bus, addr));
    assert DescribeDevice(bus, addr, u) == named;
    assert named.(configs := []) == named;
  }

  /**
   On every answer of usbd: an attach is refused exactly if the device cannot be opened, with usbd's code,
   or if an accepted device descriptor counts configurations and is followed by something other than the
   9-byte header of one.
   */
  lemma RefusedExact(bus: byte, addr: byte, u: Usbd)
    ensures u.openCode != UecOk ==> Describe(bus, addr, u) == Info.Refused(u.openCode)
    ensures u.openCode == UecOk ==>
      && (Describe(bus, addr, u).Refused? <==>
            && u.rawCode == UecOk && |u.raw| > 18 && u.raw[0] == 18 && u.raw[17] != 0
            && (|u.raw| < 18 + 9 || u.raw[18] != 9))
      && (Describe(bus, addr, u).Refused? ==> Describe(bus, addr, u) == Info.Refused(UecServiceInvalidValue))
  {
    hide ParseConfigs, NameDevice, DescConfigCount, DescribeDevice;
    CountedExact(bus, addr, u);
    DriverRefuses(u.raw, DescConfigCount(DescribeDevice(bus, addr, u)));
    if |u.raw| > 18 {
      ParseConfigRefuses(u.raw[18..]);
    }
  }

  lemma CountedExact(bus: byte, addr: byte, u: Usbd)
    ensures DescConfigCount(DescribeDevice(bus, addr, u)) ==
      if u.rawCode == UecOk && |u.raw| >= 18 && u.raw[0] == 18 && u.raw[17] != 0 then 1 else 0
  {
    hide DeviceName;
  }

  lemma DriverRefuses(s: seq<byte>, n: nat)
    requires n <= 1
    ensures var r := ParseConfigs(s, n, CURSOR_INIT, []);
      if n == 1 && |s| > 18 && ParseConfig(s[18..]).Returned? && ParseConfig(s[18..]).code != UecOk
      then r.Returned? && r.code == ParseConfig(s[18..]).code
      else r.Returned? ==> r.code == UecOk
  {
    hide ParseConfig;
    if n == 1 && |s| > 18 && ParseConfig(s[18..]).Returned? {
      var c := ParseConfig(s[18..]);
      assert ParseConfigs(s, 0, 18 + c.used, [] + [c.value]) == Returned(UecOk, [] + [c.value], 18 + c.used);
    }
  }

  lemma ParseConfigRefuses(s: seq<byte>)
    ensures ParseConfig(s).Returned? && ParseConfig(s).code != UecOk <==> |s| < 9 || s[0] != 9
    ensures ParseConfig(s).Returned? && ParseConfig(s).code != UecOk ==> ParseConfig(s).code == UecServiceInvalidValue
  {
    hide CollectInterfaces;
  }

  /** Endpoints carry the id of their interface, which is a byte; and no list is longer than a byte can say. */
  predicate Sound(d: Device) {
    |d.configs| <= 1 && forall c :: c in d.configs ==> SoundConfig(c)
  }

  predicate SoundConfig(c: Config) {
    |c.interfaces| < 0x100 && forall i :: i in c.interfaces ==> SoundInterface(i)
  }

  predicate SoundInterface(i: Interface) {
    && |i.endpoints| < 0x100
    && (i.endpoints != [] ==> 0 <= i.id < 0x100)
    && forall ep :: ep in i.endpoints ==> ep.interfaceId == i.id
  }

  lemma {:induction false} CollectedAreSound(s: seq<byte>, limit: byte, cursor: nat, found: seq<Interface>)
    requires cursor <= |s| && forall i :: i in found ==> SoundInterface(i)
    requires CollectInterfaces(s, limit, cursor, found).Returned?
    ensures forall i :: i in CollectInterfaces(s, limit, cursor, found).value ==> SoundInterface(i)
    decreases |s| - cursor
  {
    hide ParseInterface;
    if |found| < limit && cursor < |s| {
      var r := ParseInterface(s[cursor..]);
      assert SoundInterface(r.value);
      hide SoundInterface;
      var next := cursor + r.used;
      if r.used > 0 && |r.value.endpoints| > 0 {
        CollectedAreSound(s, limit, next, found + [r.value]);
      } else if r.used > 0 {
        CollectedAreSound(s, limit, next, found);
      }
    }
  }

  lemma ParsedConfigIsSound(s: seq<byte>)
    requires ParseConfig(s).Returned? && ParseConfig(s).code == UecOk
    ensures SoundConfig(ParseConfig(s).value)
  {
    hide CollectInterfaces, SoundInterface;
    CollectedAreSound(s, s[4], 9, []);
  }

  lemma {:induction false} ParsedConfigsAreSound(s: seq<byte>, n: nat, cursor: nat, configs: seq<Config>)
    requires forall c :: c in configs ==> SoundConfig(c)
    requires ParseConfigs(s, n, cursor, configs).Returned? && ParseConfigs(s, n, cursor, configs).code == UecOk
    ensures forall c :: c in ParseConfigs(s, n, cursor, configs).value ==> SoundConfig(c)
    decreases n
  {
    hide ParseConfig, SoundConfig;
    if n > 0 && cursor < |s| {
      var r := ParseConfig(s[cursor..]);
      ParsedConfigIsSound(s[cursor..]);
      ParsedConfigsAreSound(s, n - 1, cursor + r.used, configs + [r.value]);
    }
  }

  lemma NamingKeepsSound(c: Config, table: StringTable)
    requires SoundConfig(c)
    ensures SoundConfig(NameConfig(c, table))
  {
    var named := NameConfig(c, table).interfaces;
    forall i | i in named ensures SoundInterface(i) {
      var k :| 0 <= k < |named| && named[k] == i;
      assert c.interfaces[k] in c.interfaces;
    }
  }

  /**
   Every described device is sound; so the interface id of an endpoint, which does not cross the parcel,
   can always be rebuilt from the interface.
   */
  lemma DescribedIsSound(bus: byte, addr: byte, u: Usbd)
    requires Describe(bus, addr, u).Known?
    ensures Sound(Describe(bus, addr, u).device)
  {
    hide DescribeDevice, ParseConfigs, SoundConfig, NameConfig;
    var dev := DescribeDevice(bus, addr, u);
    var r := ParseConfigs(u.raw, DescConfigCount(dev), CURSOR_INIT, []);
    ParsedConfigsAreSound(u.raw, DescConfigCount(dev), CURSOR_INIT, []);
    var named := Describe(bus, addr, u).device.configs;
    assert named == NameConfigs(r.value, u.strings);
    forall c | c in named ensures SoundConfig(c) {
      var k :| 0 <= k < |named| && named[k] == c;
      assert r.value[k] in r.value;
      NamingKeepsSound(r.value[k], u.strings);
    }
  }
}
