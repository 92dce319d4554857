/**
 A listener to the attach and detach broadcasts, which carry the device as JSON: what it comes to
 believe after a run of the service, compared with the table and with what a client is told.
 */
module Listener {
  import opened Machine
  import opened DeviceTree
  import opened DeviceInfo
  import opened Parcels
  import opened DeviceCodec
  import opened JsonCodec
  import opened Service
  import opened EndToEnd
  import Host = HostManager

  /** One published event: which of the two actions, and the data string as the tree it is the text of. */
  datatype Notice = Notice(attached: bool, data: Json)

  function NoticeOf(b: Host.Broadcast): Notice {
    Notice(b.Attached?, DeviceJson(b.device))
  }

  function Notices(log: seq<Host.Broadcast>): (r: seq<Notice>)
    ensures |r| == |log| && forall k :: 0 <= k < |r| ==> r[k] == NoticeOf(log[k])
  {
    seq(|log|, k requires 0 <= k < |log| => NoticeOf(log[k]))
  }

  /** The listener rebuilds each device, and keeps for a bus and address the last one announced and not withdrawn. */
  function Heard(notices: seq<Notice>, bus: byte, addr: byte): Option<Device> {
    if notices == [] then None
    else
      var before, n := notices[..|notices| - 1], notices[|notices| - 1];
      var d := DeviceFrom(n.data);
      if d.busNum != bus || d.devAddr != addr then Heard(before, bus, addr)
      else if n.attached then Some(d) else None
  }

  lemma EmittedKeepsPlace(d: Device)
    ensures DeviceEmitted(d).busNum == d.busNum && DeviceEmitted(d).devAddr == d.devAddr
  {
  }

  /** Hearing the broadcasts as JSON is replaying them, up to the members that are not emitted. */
  lemma {:induction false} HeardIsReplay(log: seq<Host.Broadcast>, bus: byte, addr: byte)
    ensures Heard(Notices(log), bus, addr) ==
      match Host.Replay(log, bus, addr)
      case None => None
      case Some(d) => Some(DeviceEmitted(d))
    decreases |log|
  {
    hide DeviceFrom, DeviceJson, DeviceEmitted;
    if log != [] {
      var before, b := log[..|log| - 1], log[|log| - 1];
      HeardIsReplay(before, bus, addr);
      assert Notices(log)[..|log| - 1] == Notices(before);
      DeviceJsonRoundTrip(b.device);
      EmittedKeepsPlace(b.device);
    }
  }

  /** What a listener to every broadcast of a run of the service believes. */
  function Believed(calls: seq<Call>, bus: byte, addr: byte): Option<Device> {
    Heard(Notices(After(calls).host.log), bus, addr)
  }

  /** After every run the listener believes the newest description, up to the members that are not emitted. */
  lemma ListenerKnowsTable(calls: seq<Call>, bus: byte, addr: byte)
    ensures Believed(calls, bus, addr) ==
      match Host.Newest(HostEvents(calls), bus, addr)
      case None => None
      case Some(d) => Some(DeviceEmitted(d))
  {
    hide Heard, Host.Run, Host.Newest, Host.Replay, Host.Lookup, Host.Inv, DeviceEmitted, After;
    var events := HostEvents(calls);
    HostFollowsEvents(calls);
    HeardIsReplay(After(calls).host.log, bus, addr);
    Host.BroadcastsTellTable(events, bus, addr);
    Host.RegistryExact(events, bus, addr);
  }

  /** What the listener believes about a place and a device x of the client's list are the same device. */
  ghost predicate Agrees(believed: Option<Device>, x: Device) {
    believed.Some? && SameDevice(believed.value, x)
  }

  lemma NewestAgrees(calls: seq<Call>, d: Device)
    requires Host.Newest(HostEvents(calls), d.busNum, d.devAddr) == Some(d)
    ensures Agrees(Believed(calls, d.busNum, d.devAddr), DeviceSeen(d))
  {
    hide Believed, Host.Newest, SameDevice, DeviceSeen, DeviceEmitted, DeviceFrom, DeviceJson, Sound;
    ListenerKnowsTable(calls, d.busNum, d.devAddr);
    NewestIsSound(HostEvents(calls), d.busNum, d.devAddr);
    SoundExportsAgree(d);
    DeviceJsonRoundTrip(d);
  }

  /**
   Main result. After every run, the listener and the client know the same devices: for every device the
   client decodes the listener believes the same one at that bus and address, up to the members that only
   one of them is told; and wherever the listener believes anything the client has decoded a device.
   */
  lemma ListenerAgreesWithClient(calls: seq<Call>, list: seq<Device>, suffix: seq<Cell>)
    requires ListedFrom(After(calls).host, list)
    ensures var r := DecodeDevices(EncodeDevices(list) + suffix);
      && r.Got?
      && (forall x :: x in r.value ==> Agrees(Believed(calls, x.busNum, x.devAddr), x))
      && (forall bus: byte, addr: byte :: Believed(calls, bus, addr).Some? ==>
            exists x :: x in r.value && x.busNum == bus && x.devAddr == addr)
  {
    hide ListedFrom, After, Believed, Agrees, Host.Newest, DecodeDevices, EncodeDevices, DeviceSeen, DeviceEmitted;
    ClientSeesRegistry(calls, list, suffix);
    var seen := DevicesSeen(list);
    forall x | x in seen ensures Agrees(Believed(calls, x.busNum, x.devAddr), x) {
      var k :| 0 <= k < |seen| && seen[k] == x;
      SeenKeepsPlace(list[k]);
      assert list[k] in list;
      NewestAgrees(calls, list[k]);
    }
    forall bus: byte, addr: byte | Believed(calls, bus, addr).Some?
      ensures exists x :: x in seen && x.busNum == bus && x.devAddr == addr
    {
      ListenerKnowsTable(calls, bus, addr);
      var events := HostEvents(calls);
      var d := Host.Newest(events, bus, addr).value;
      NewestIsSound(events, bus, addr);
      var k :| 0 <= k < |list| && list[k] == d;
      SeenKeepsPlace(d);
      assert seen[k] in seen;
    }
  }
}
