/** The service: device events drive the registry, the rights table gates opening, clients list devices. */
module Service {
  import opened Machine
  import opened DeviceTree
  import opened Text
  import opened DescriptorParser
  import opened DeviceInfo
  import opened StateBroadcast
  import opened KeyOrder
  import Host = HostManager
  import Rights = RightManager

  // ---------------------------------------------------------------- state and calls

  /** An open call that reached usbd, and for whom. */
  datatype Open = Open(bus: byte, addr: byte, bundle: string)

  datatype State = State(host: Host.Host, rights: Rights.RightMap, opens: seq<Open>)

  /** What can happen to the service; a caller is missing when its bundle name cannot be found. */
  datatype Call =
    | Event(event: Host.HostEvent)
    | Ask(device: string, caller: Option<string>, agreed: bool)
    | Revoke(device: string)
    | TryOpen(bus: byte, addr: byte, caller: Option<string>)

  const INITIAL := State(Host.EMPTY_HOST, map[], [])

  function Serve(s: State, c: Call): State {
    match c
    case Event(e) => s.(host := Host.Step(s.host, e))
    case Ask(d, caller, agreed) =>
      if caller.Some? then s.(rights := Rights.Apply(s.rights, Rights.Request(d, caller.value, agreed))) else s
    case Revoke(d) => s.(rights := Rights.Apply(s.rights, Rights.Remove(d)))
    case TryOpen(bus, addr, caller) =>
      if caller.Some? && Rights.Has(s.rights, DeviceName(bus, addr), caller.value)
      then s.(opens := s.opens + [Open(bus, addr, caller.value)]) else s
  }

  function Detach(bus: byte, addr: byte): Call {
    Event(Host.Down(bus, addr))
  }

  /** The call a usbd event makes for the table of attached devices, if any. */
  function HostCall(status: Status, bus: int32, addr: int32, u: Usbd): Option<Call>
    requires status.ActDevUp? ==> Host.Defined(Host.Up(ToByte(bus), ToByte(addr), u))
  {
    match status
    case ActDevUp => Some(Event(Host.Up(ToByte(bus), ToByte(addr), u)))
    case OtherStatus => Some(Detach(ToByte(bus), ToByte(addr)))
    case _ => None
  }

  function Follow(s: State, c: Option<Call>): State {
    if c.None? then s else Serve(s, c.value)
  }

  function After(calls: seq<Call>): State {
    if calls == [] then INITIAL else Serve(After(calls[..|calls| - 1]), calls[|calls| - 1])
  }

  // ---------------------------------------------------------------- the class

  class UsbService {
    const memory: Host.Memory
    const usbHostManager: Host.UsbHostManager
    const usbRightManager: Rights.UsbRightManager
    const usbDeviceManager: UsbDeviceManager
    ghost var opens: seq<Open>

    constructor ()
      ensures Valid() && Model() == INITIAL
      ensures fresh(memory) && fresh(usbHostManager) && fresh(usbRightManager) && fresh(usbDeviceManager)
    {
      var heap := new Host.Memory();
      memory := heap;
      usbHostManager := new Host.UsbHostManager(heap);
      usbRightManager := new Rights.UsbRightManager();
      usbDeviceManager := new UsbDeviceManager();
      opens := [];
      new;
      Host.EmptyInv(0, 0);
    }

    ghost function Model(): State
      reads this, usbHostManager, usbHostManager.memory, usbRightManager
    {
      State(usbHostManager.Model(), usbRightManager.rightMap, opens)
    }

    ghost predicate Valid()
      reads this, usbHostManager, usbHostManager.memory
    {
      usbHostManager.memory == memory && Host.Inv(usbHostManager.Model())
    }

    /** The object is allocated first and filled in while it is described. */
    method AddDevice(busNum: byte, devAddr: byte, u: Usbd) returns (r: bool)
      requires Valid() && |u.raw| <= MAX_LENGTH && Host.Defined(Host.Up(busNum, devAddr, u))
      modifies memory, usbHostManager
      ensures Valid() && Model() == Serve(old(Model()), Event(Host.Up(busNum, devAddr, u)))
      ensures r <==> Describe(busNum, devAddr, u).Known?
    {
      hide Describe, Host.Inv, Host.HostAdd, Host.KeyOf;
      ghost var h := usbHostManager.Model();
      Host.NextIsUnused(h);
      Host.EntriesAreLive(h);
      var devInfo := memory.New(CLEARED_DEVICE);
      var info := GetDeviceInfo(busNum, devAddr, u);
      if info.Refused? {
        memory.Delete(devInfo);
        Host.RejectKeepsInv(h);
        assert usbHostManager.Model() == Host.Reject(h);
        return false;
      }
      memory.Fill(devInfo, info.device);
      assert memory.heap == Host.Alloc(h.heap, info.device);
      Host.AttachKeepsInv(h, info.device);
      var added := usbHostManager.AddDevice(devInfo);
      r := true;
    }

    method DelDevice(busNum: byte, devAddr: byte) returns (r: bool)
      requires Valid()
      modifies memory, usbHostManager
      ensures Valid() && Model() == Serve(old(Model()), Detach(busNum, devAddr))
      ensures r <==> DeviceName(busNum, devAddr) in old(usbHostManager.devices)
    {
      hide Host.Inv, Host.HostDel;
      ghost var h := usbHostManager.Model();
      Host.NextIsUnused(h);
      Host.EntriesAreLive(h);
      Host.DetachKeepsInv(h, busNum, devAddr);
      r := usbHostManager.DelDevice(busNum, devAddr);
    }

    /** Any status that is not one of the three known ones counts as a detach. */
    method DeviceEvent(status: Status, bus: int32, addr: int32, u: Usbd, reported: Option<bv32>)
      returns (event: Option<StateEvent>)
      requires Valid() && |u.raw| <= MAX_LENGTH
      requires status.ActDevUp? ==> Host.Defined(Host.Up(ToByte(bus), ToByte(addr), u))
      modifies memory, usbHostManager, usbDeviceManager
      ensures Valid()
      ensures Model() == Follow(old(Model()), HostCall(status, bus, addr, u))
      ensures status.ActUpDevice? || status.ActDownDevice? ==> Model() == old(Model())
      ensures status.OtherStatus? ==>
        Host.OnlyChange(old(Model()).host, Model().host, ToByte(bus), ToByte(addr), None)
      ensures status.ActDevUp? ==>
        match Describe(ToByte(bus), ToByte(addr), u)
        case Known(d) => Host.OnlyChange(old(Model()).host, Model().host, d.busNum, d.devAddr, Some(d))
        case Refused(_) => Host.OnlyChange(old(Model()).host, Model().host, 0, 0, Host.Lookup(old(Model()).host, 0, 0))
        case Broken(_) => false
      ensures status.ActUpDevice? || status.ActDownDevice? ==>
        && usbDeviceManager.connected == status.ActUpDevice?
        && usbDeviceManager.currentFunctions
           == (if status.ActUpDevice? then reported.GetOr(old(usbDeviceManager.currentFunctions))
               else old(usbDeviceManager.currentFunctions))
        && event == Some(StateEvent(usbDeviceManager.connected, NamesSet(usbDeviceManager.currentFunctions)))
      ensures status.ActDevUp? || status.OtherStatus? ==>
        && usbDeviceManager.connected == old(usbDeviceManager.connected)
        && usbDeviceManager.currentFunctions == old(usbDeviceManager.currentFunctions) && event == None
    {
      hide Host.Inv, Serve, Host.Defined, NamesSet, Describe, Host.OnlyChange;
      if status.ActUpDevice? || status.ActDownDevice? {
        event := usbDeviceManager.HandleEvent(status, reported);
        return;
      }
      event := None;
      ServeEvent(Model(), status, bus, addr, u);
      var ignored;
      if status.ActDevUp? {
        ignored := AddDevice(ToByte(bus), ToByte(addr), u);
      } else {
        ignored := DelDevice(ToByte(bus), ToByte(addr));
      }
    }

    method HasRight(deviceName: string, caller: Option<string>) returns (r: bool)
      ensures r <==> caller.Some? && Rights.Has(usbRightManager.rightMap, deviceName, caller.value)
    {
      if caller.None? {
        return false;
      }
      r := usbRightManager.HasRight(deviceName, caller.value);
    }

    method RequestRight(deviceName: string, caller: Option<string>, agreed: bool) returns (code: Code)
      requires Valid()
      modifies usbRightManager
      ensures Valid() && Model() == Serve(old(Model()), Ask(deviceName, caller, agreed))
      ensures code ==
        if caller.None? then UecServiceInnerErr
        else if Rights.Has(usbRightManager.rightMap, deviceName, caller.value) then UecOk
        else UecServicePermissionDenied
    {
      hide Host.Inv, Rights.Has;
      if caller.None? {
        return UecServiceInnerErr;
      }
      code := usbRightManager.RequestRight(deviceName, caller.value, agreed);
    }

    method RemoveRight(deviceName: string) returns (code: Code)
      requires Valid()
      modifies usbRightManager
      ensures Valid() && Model() == Serve(old(Model()), Revoke(deviceName))
      ensures code == if deviceName in old(usbRightManager.rightMap) then UecOk else UecServiceInnerErr
    {
      hide Host.Inv;
      var removed := usbRightManager.RemoveDeviceRight(deviceName);
      code := if removed then UecOk else UecServiceInnerErr;
    }

    /** answer is what usbd says, if it is asked. */
    method OpenDevice(busNum: byte, devAddr: byte, caller: Option<string>, answer: Code) returns (code: Code)
      requires Valid()
      modifies this`opens
      ensures Valid() && Model() == Serve(old(Model()), TryOpen(busNum, devAddr, caller))
      ensures code == if opens == old(opens) then UecServicePermissionDenied else answer
    {
      hide Host.Inv, Digits, Rights.Has;
      var name := Digits(busNum) + "-" + Digits(devAddr);
      var right := HasRight(name, caller);
      if !right {
        return UecServicePermissionDenied;
      }
      opens := opens + [Open(busNum, devAddr, caller.value)];
      code := answer;
    }

    /** The descriptions of all attached devices, in the order of their names. */
    method GetDevices() returns (deviceList: seq<Device>)
      requires Valid()
      ensures ListedFrom(usbHostManager.Model(), deviceList)
    {
      hide Host.Inv, LexLe;
      Host.EntriesAreLive(usbHostManager.Model());
      var devices := usbHostManager.devices;
      var rest := devices.Keys;
      var keys: seq<string> := [];
      deviceList := [];
      while rest != {}
        invariant rest <= devices.Keys && |keys| == |deviceList|
        invariant forall k :: k in devices.Keys <==> k in keys || k in rest
        invariant forall k :: k in keys ==> k !in rest
        invariant InKeyOrder(keys) && forall k, j :: k in keys && j in rest ==> LexLe(k, j)
        invariant forall i :: 0 <= i < |keys| ==> deviceList[i] == memory.heap.live[devices[keys[i]]]
        decreases rest
      {
        LeastExists(rest);
        var k :| k in rest && forall j :: j in rest ==> LexLe(k, j);
        keys := keys + [k];
        rest := rest - {k};
        deviceList := deviceList + [memory.heap.live[devices[k]]];
      }
      assert Walks(keys, devices.Keys) && ListedAs(usbHostManager.Model(), keys, deviceList);
    }
  }

  /** What the event of a status does to the table. */
  lemma ServeEvent(s: State, status: Status, bus: int32, addr: int32, u: Usbd)
    requires Host.Inv(s.host)
    requires status.ActDevUp? ==> Host.Defined(Host.Up(ToByte(bus), ToByte(addr), u))
    ensures status.OtherStatus? ==>
      var g := Serve(s, Detach(ToByte(bus), ToByte(addr))).host;
      Host.OnlyChange(s.host, g, ToByte(bus), ToByte(addr), None)
    ensures status.ActDevUp? ==>
      var g := Serve(s, Event(Host.Up(ToByte(bus), ToByte(addr), u))).host;
      match Describe(ToByte(bus), ToByte(addr), u)
      case Known(d) => Host.OnlyChange(s.host, g, d.busNum, d.devAddr, Some(d))
      case Refused(_) => Host.OnlyChange(s.host, g, 0, 0, Host.Lookup(s.host, 0, 0))
      case Broken(_) => false
  {
    hide Host.Inv, Describe, Host.OnlyChange, Host.Step;
    if status.OtherStatus? {
      Host.StepChanges(s.host, Host.Down(ToByte(bus), ToByte(addr)));
    } else if status.ActDevUp? {
      Host.StepChanges(s.host, Host.Up(ToByte(bus), ToByte(addr), u));
    }
  }

  /** The list walks the table in key order. */
  ghost predicate ListedAs(h: Host.Host, keys: seq<string>, list: seq<Device>) {
    && Walks(keys, h.devices.Keys) && |list| == |keys|
    && forall i :: 0 <= i < |keys| ==> h.devices[keys[i]] in h.heap.live && list[i] == h.heap.live[h.devices[keys[i]]]
  }

  ghost predicate ListedFrom(h: Host.Host, list: seq<Device>) {
    exists keys :: ListedAs(h, keys, list)
  }

  /** A table has a listing... */
  lemma ListingExists(h: Host.Host) returns (list: seq<Device>)
    requires Host.Inv(h)
    ensures ListedFrom(h, list)
  {
    hide Host.Inv, Walks;
    Host.EntriesAreLive(h);
    var keys := WalkExists(h.devices.Keys);
    WalkedAreKeys(keys, h.devices.Keys);
    list := seq(|keys|, i requires 0 <= i < |keys| => h.heap.live[h.devices[keys[i]]]);
    assert ListedAs(h, keys, list);
  }

  lemma WalkedAreKeys(keys: seq<string>, all: set<string>)
    requires Walks(keys, all)
    ensures forall i :: 0 <= i < |keys| ==> keys[i] in all
  {
    hide InKeyOrder;
  }

  /** ...and only one. */
  lemma ListingIsUnique(h: Host.Host, a: seq<Device>, b: seq<Device>)
    requires ListedFrom(h, a) && ListedFrom(h, b)
    ensures a == b
  {
    hide Walks;
    var i :| ListedAs(h, i, a);
    var j :| ListedAs(h, j, b);
    WalkIsUnique(i, j, h.devices.Keys);
  }

  // ---------------------------------------------------------------- runs

  function HostEvents(calls: seq<Call>): seq<Host.HostEvent> {
    if calls == [] then []
    else
      var before, c := HostEvents(calls[..|calls| - 1]), calls[|calls| - 1];
      if c.Event? then before + [c.event] else before
  }

  function RightOps(calls: seq<Call>): seq<Rights.RightOp> {
    if calls == [] then []
    else
      var before, c := RightOps(calls[..|calls| - 1]), calls[|calls| - 1];
      match c
      case Ask(d, Some(b), agreed) => before + [Rights.Request(d, b, agreed)]
      case Revoke(d) => before + [Rights.Remove(d)]
      case _ => before
  }

  /** Only device events move the registry. */
  lemma {:induction false} HostFollowsEvents(calls: seq<Call>)
    ensures After(calls).host == Host.Run(HostEvents(calls))
    decreases |calls|
  {
    hide Host.Step, Rights.Apply, Rights.Has;
    if calls != [] {
      var before, c := calls[..|calls| - 1], calls[|calls| - 1];
      HostFollowsEvents(before);
      if c.Event? {
        HostRunAppend(HostEvents(before), c.event);
      }
    }
  }

  lemma HostRunAppend(events: seq<Host.HostEvent>, e: Host.HostEvent)
    ensures Host.Run(events + [e]) == Host.Step(Host.Run(events), e)
  {
  }

  /** Only right requests move the rights. */
  lemma {:induction false} RightsFollowRequests(calls: seq<Call>)
    ensures After(calls).rights == Rights.Run(RightOps(calls))
    decreases |calls|
  {
    hide Host.Step, Rights.Apply, Rights.Has;
    if calls != [] {
      var before, c := calls[..|calls| - 1], calls[|calls| - 1];
      RightsFollowRequests(before);
      match c {
        case Ask(d, Some(b), agreed) => RightsRunAppend(RightOps(before), Rights.Request(d, b, agreed));
        case Revoke(d) => RightsRunAppend(RightOps(before), Rights.Remove(d));
        case _ =>
      }
    }
  }

  lemma RightsRunAppend(ops: seq<Rights.RightOp>, op: Rights.RightOp)
    ensures Rights.Run(ops + [op]) == Rights.Apply(Rights.Run(ops), op)
  {
  }

  /** The opens that should reach usbd: those whose caller was granted that very name, and not removed since. */
  ghost function GrantedOpens(calls: seq<Call>): seq<Open> {
    if calls == [] then []
    else
      var before, c := calls[..|calls| - 1], calls[|calls| - 1];
      match c
      case TryOpen(bus, addr, Some(b)) =>
        if Rights.GrantStands(RightOps(before), DeviceName(bus, addr), b)
        then GrantedOpens(before) + [Open(bus, addr, b)] else GrantedOpens(before)
      case _ => GrantedOpens(before)
  }

  /** Main result. In every run exactly the opens with a standing grant reach usbd, in order. */
  lemma {:induction false} OpensAreGated(calls: seq<Call>)
    ensures After(calls).opens == GrantedOpens(calls)
    decreases |calls|
  {
    hide Rights.GrantStands, Host.Step, DeviceName;
    if calls != [] {
      var before, c := calls[..|calls| - 1], calls[|calls| - 1];
      OpensAreGated(before);
      RightsFollowRequests(before);
      match c {
        case TryOpen(bus, addr, Some(b)) =>
          Rights.RightsExact(RightOps(before), DeviceName(bus, addr), b);
        case _ =>
      }
    }
  }

  /** A grant for one device never opens another: the standing grant names exactly this bus and address. */
  lemma GrantIsForThisDevice(calls: seq<Call>, bus: byte, addr: byte, bundle: string)
    requires Rights.GrantStands(RightOps(calls), DeviceName(bus, addr), bundle)
    ensures exists i, device ::
      && 0 <= i < |calls| && calls[i] == Ask(device, Some(bundle), true)
      && forall b: byte, a: byte :: device == DeviceName(b, a) <==> b == bus && a == addr
  {
    var device := DeviceName(bus, addr);
    var ops := RightOps(calls);
    var k :| 0 <= k < |ops| && ops[k] == Rights.Request(device, bundle, true)
      && Rights.NotRemovedFrom(ops, device, k);
    var i := OriginOf(calls, k);
    forall b: byte, a: byte ensures device == DeviceName(b, a) <==> b == bus && a == addr {
      Host.NamesDiffer(bus, addr, b, a);
    }
    hide DeviceName;
    assert calls[i] == Ask(device, Some(bundle), true);
  }

  /** Every rights operation comes from a call. */
  lemma {:induction false} OriginOf(calls: seq<Call>, k: nat) returns (i: nat)
    requires k < |RightOps(calls)|
    ensures i < |calls|
    ensures match RightOps(calls)[k]
      case Request(d, b, agreed) => calls[i] == Ask(d, Some(b), agreed)
      case Remove(d) => calls[i] == Revoke(d)
    decreases |calls|
  {
    var before := calls[..|calls| - 1];
    if k < |RightOps(before)| {
      i := OriginOf(before, k);
    } else {
      i := |calls| - 1;
    }
  }

  // ---------------------------------------------------------------- how many devices there can be

  function Code16(d: Device): (r: nat)
    ensures r < 0x1_0000
  {
    0x100 * d.busNum + d.devAddr
  }

  /** Names come from a bus and an address byte, so a listing has at most 65536 devices. */
  lemma ListingIsSmall(h: Host.Host, keys: seq<string>, list: seq<Device>)
    requires Host.Inv(h) && ListedAs(h, keys, list)
    ensures |list| <= 0x1_0000
  {
    var xs := seq(|list|, i requires 0 <= i < |list| => Code16(list[i]));
    KeysAreNames(h, keys, list);
    hide *;
    forall i, j | 0 <= i < j < |xs| ensures xs[i] != xs[j] {
      DifferentCodes(list[i], list[j]);
    }
    Pigeonhole(xs, 0x1_0000);
  }

  lemma KeysAreNames(h: Host.Host, keys: seq<string>, list: seq<Device>)
    requires Host.Inv(h) && ListedAs(h, keys, list)
    ensures forall i :: 0 <= i < |keys| ==> Host.KeyOf(list[i]) == keys[i]
    ensures |keys| == |list| && forall i, j :: 0 <= i < j < |keys| ==> keys[i] != keys[j]
  {
  }

  lemma DifferentCodes(d: Device, e: Device)
    requires Host.KeyOf(d) != Host.KeyOf(e)
    ensures Code16(d) != Code16(e)
  {
    hide DeviceName;
  }
}
