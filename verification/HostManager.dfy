/**
 The table of attached devices: a map from names to owned device objects. Objects live on an explicit
 heap, so that owning, deleting and losing them can be told apart.
 */
module HostManager {
  import opened Machine
  import opened DeviceTree
  import opened Text
  import opened DeviceInfo

  /** The address of a device object; 0 is the null pointer. */
  type Ptr = nat

  const NULL: Ptr := 0

  /** Live objects, the addresses freed so far in order, and the next address to hand out. */
  datatype Heap = Heap(live: map<Ptr, Device>, freed: seq<Ptr>, next: Ptr)

  const EMPTY_HEAP := Heap(map[], [], 1)

  datatype Broadcast = Attached(device: Device) | Detached(device: Device)

  /** The manager with the heap it works on, every publish attempt, and how often an entry was replaced. */
  datatype Host = Host(devices: map<string, Ptr>, heap: Heap, log: seq<Broadcast>, replaced: nat)

  const EMPTY_HOST := Host(map[], EMPTY_HEAP, [], 0)

  function KeyOf(d: Device): string {
    DeviceName(d.busNum, d.devAddr)
  }

  function Alloc(h: Heap, d: Device): Heap {
    Heap(h.live[h.next := d], h.freed, h.next + 1)
  }

  function Free(h: Heap, p: Ptr): Heap {
    if p == NULL then h else Heap(h.live - {p}, h.freed + [p], h.next)
  }

  /** Entries are null or point to a live object. */
  predicate Linked(h: Host) {
    forall k :: k in h.devices ==> h.devices[k] == NULL || h.devices[k] in h.heap.live
  }

  function HostAdd(h: Host, p: Ptr): Host
    requires p in h.heap.live
  {
    var d := h.heap.live[p];
    var key := KeyOf(d);
    if key in h.devices then
      Host((h.devices - {key})[key := p], Free(h.heap, h.devices[key]), h.log + [Attached(d)], h.replaced + 1)
    else
      Host(h.devices[key := p], h.heap, h.log + [Attached(d)], h.replaced)
  }

  function HostDel(h: Host, bus: byte, addr: byte): Host
    requires Linked(h)
  {
    var key := DeviceName(bus, addr);
    if key !in h.devices || h.devices[key] == NULL then h
    else
      var p := h.devices[key];
      Host(h.devices - {key}, Free(h.heap, p), h.log + [Detached(h.heap.live[p])], h.replaced)
  }

  // ---------------------------------------------------------------- the classes

  class Memory {
    var heap: Heap

    constructor ()
      ensures heap == EMPTY_HEAP
    {
      heap := EMPTY_HEAP;
    }

    method New(d: Device) returns (p: Ptr)
      modifies this
      ensures p == old(heap.next) && heap == Alloc(old(heap), d)
    {
      p := heap.next;
      heap := Heap(heap.live[p := d], heap.freed, p + 1);
    }

    /** Writing the members of a live object. */
    method Fill(p: Ptr, d: Device)
      requires p in heap.live
      modifies this
      ensures heap == old(heap).(live := old(heap).live[p := d])
    {
      heap := heap.(live := heap.live[p := d]);
    }

    /** Deleting null does nothing; anything else must be a live object. */
    method Delete(p: Ptr)
      requires p == NULL || p in heap.live
      modifies this
      ensures heap == Free(old(heap), p)
    {
      if p != NULL {
        heap := Heap(heap.live - {p}, heap.freed + [p], heap.next);
      }
    }
  }

  class UsbHostManager {
    const memory: Memory
    var devices: map<string, Ptr>
    ghost var log: seq<Broadcast>
    ghost var replaced: nat

    constructor (memory: Memory)
      ensures this.memory == memory && devices == map[] && log == [] && replaced == 0
    {
      this.memory := memory;
      devices, log, replaced := map[], [], 0;
    }

    ghost function Model(): Host
      reads this, memory
    {
      Host(devices, memory.heap, log, replaced)
    }

    ghost method PublishCommonEvent(event: Broadcast)
      modifies this`log
      ensures log == old(log) + [event]
    {
      log := log + [event];
    }

    method AddDevice(dev: Ptr) returns (r: bool)
      requires dev == NULL || dev in memory.heap.live
      requires Linked(Model()) && NULL !in memory.heap.live
      modifies this, memory
      ensures dev == NULL ==> !r && Model() == old(Model())
      ensures dev != NULL ==> r && Model() == HostAdd(old(Model()), dev)
    {
      if dev == NULL {
        return false;
      }
      var d := memory.heap.live[dev];
      PublishCommonEvent(Attached(d));
      var name := Digits(d.busNum) + "-" + Digits(d.devAddr);
      if name in devices {
        var devOld := devices[name];
        memory.Delete(devOld);
        devices := devices - {name};
        replaced := replaced + 1;
      }
      devices := devices[name := dev];
      r := true;
    }

    method DelDevice(busNum: byte, devNum: byte) returns (r: bool)
      requires Linked(Model()) && NULL !in memory.heap.live
      modifies this, memory
      ensures Model() == HostDel(old(Model()), busNum, devNum)
      ensures r <==> DeviceName(busNum, devNum) in old(devices) && old(devices)[DeviceName(busNum, devNum)] != NULL
    {
      var name := Digits(busNum) + "-" + Digits(devNum);
      if name !in devices {
        return false;
      }
      var devOld := devices[name];
      if devOld == NULL {
        return false;
      }
      PublishCommonEvent(Detached(memory.heap.live[devOld]));
      memory.Delete(devOld);
      devices := devices - {name};
      r := true;
    }
  }

  // ---------------------------------------------------------------- what every step keeps

  function Count(log: seq<Broadcast>, attached: bool): nat {
    if log == [] then 0
    else Count(log[..|log| - 1], attached) + if log[|log| - 1].Attached? == attached then 1 else 0
  }

  function Occurrences(freed: seq<Ptr>, p: Ptr): nat {
    multiset(freed)[p]
  }

  /** Every entry points to a live object stored under its own name; every live object is such an entry. */
  ghost predicate Owned(h: Host) {
    && (forall k :: k in h.devices ==> h.devices[k] in h.heap.live && KeyOf(h.heap.live[h.devices[k]]) == k)
    && (forall p :: p in h.heap.live ==> KeyOf(h.heap.live[p]) in h.devices && h.devices[KeyOf(h.heap.live[p])] == p)
  }

  /** Every address handed out is live and was never freed, or was freed exactly once; no other is either. */
  ghost predicate FreedOnce(h: Heap) {
    && 0 < h.next
    && (forall p: Ptr :: 0 < p < h.next ==> (Occurrences(h.freed, p) == if p in h.live then 0 else 1))
    && (forall p: Ptr :: p == NULL || h.next <= p ==> p !in h.live && Occurrences(h.freed, p) == 0)
  }

  /** Attached and detached broadcasts and replacements account for the number of entries. */
  ghost predicate Balanced(h: Host) {
    Count(h.log, true) == Count(h.log, false) + h.replaced + |h.devices|
  }

  /** What holds between events. */
  ghost predicate Inv(h: Host) {
    Owned(h) && FreedOnce(h.heap) && Balanced(h)
  }

  /** A new object, described and handed to the manager. */
  function Attach(h: Host, d: Device): Host {
    HostAdd(h.(heap := Alloc(h.heap, d)), h.heap.next)
  }

  /** A new object that could not be described, and is deleted again. */
  function Reject(h: Host): Host {
    h.(heap := Free(Alloc(h.heap, CLEARED_DEVICE), h.heap.next))
  }

  lemma CountAppend(log: seq<Broadcast>, b: Broadcast, attached: bool)
    ensures Count(log + [b], attached) == Count(log, attached) + if b.Attached? == attached then 1 else 0
  {
    assert (log + [b])[..|log|] == log;
  }

  lemma FreedAppend(freed: seq<Ptr>, p: Ptr)
    ensures forall q: Ptr :: Occurrences(freed + [p], q) == Occurrences(freed, q) + if p == q then 1 else 0
  {
  }

  lemma AllocThenFree(h: Heap, d: Device, p: Ptr)
    requires FreedOnce(h) && (p in h.live || p == h.next)
    ensures FreedOnce(Alloc(h, d)) && FreedOnce(Free(Alloc(h, d), p))
  {
    hide Occurrences;
    FreedAppend(h.freed, p);
  }

  lemma FreeKeepsFreedOnce(h: Heap, p: Ptr)
    requires FreedOnce(h) && p in h.live
    ensures FreedOnce(Free(h, p))
  {
    hide Occurrences;
    FreedAppend(h.freed, p);
  }

  lemma AttachKeepsBalance(h: Host, d: Device)
    requires Balanced(h)
    ensures Balanced(Attach(h, d))
  {
    hide Count, KeyOf;
    CountAppend(h.log, Attached(d), true);
    CountAppend(h.log, Attached(d), false);
    if KeyOf(d) in h.devices {
      assert |(h.devices - {KeyOf(d)})[KeyOf(d) := h.heap.next]| == |h.devices|;
    }
  }

  lemma AttachKeepsOwned(h: Host, d: Device)
    requires Owned(h) && h.heap.next !in h.heap.live && NULL !in h.heap.live && h.heap.next != NULL
    ensures Owned(Attach(h, d))
    ensures KeyOf(d) in Attach(h, d).devices && Attach(h, d).heap.live[Attach(h, d).devices[KeyOf(d)]] == d
    ensures forall k :: k != KeyOf(d) ==> (k in Attach(h, d).devices <==> k in h.devices)
    ensures forall k :: k in h.devices && k != KeyOf(d) ==>
      Attach(h, d).heap.live[Attach(h, d).devices[k]] == h.heap.live[h.devices[k]]
  {
    hide KeyOf;
    var g, key, p := Attach(h, d), KeyOf(d), h.heap.next;
    assert g.devices[key] == p && g.heap.live[p] == d;
    forall k | k in g.devices
      ensures g.devices[k] in g.heap.live && KeyOf(g.heap.live[g.devices[k]]) == k
      ensures k != key ==> g.devices[k] == h.devices[k] && g.heap.live[g.devices[k]] == h.heap.live[h.devices[k]]
    {
      if k != key {
        assert h.devices[k] in h.heap.live && KeyOf(h.heap.live[h.devices[k]]) == k;
      }
    }
    forall q | q in g.heap.live
      ensures KeyOf(g.heap.live[q]) in g.devices && g.devices[KeyOf(g.heap.live[q])] == q
    {
      if q != p {
        assert q in h.heap.live && h.devices[KeyOf(h.heap.live[q])] == q;
      }
    }
  }

  lemma AttachFreesOnce(h: Host, d: Device)
    requires Inv(h)
    ensures FreedOnce(Attach(h, d).heap)
  {
    hide FreedOnce, Alloc, Free, Balanced, KeyOf;
    var key := KeyOf(d);
    AllocThenFree(h.heap, d, if key in h.devices then h.devices[key] else h.heap.next);
    AllocKeepsOld(h.heap, d);
  }

  lemma AllocKeepsOld(h: Heap, d: Device)
    ensures Alloc(h, d).live[h.next] == d
  {
  }

  lemma AttachKeepsInv(h: Host, d: Device)
    requires Inv(h)
    ensures Inv(Attach(h, d))
    ensures KeyOf(d) in Attach(h, d).devices && Attach(h, d).heap.live[Attach(h, d).devices[KeyOf(d)]] == d
    ensures forall k :: k != KeyOf(d) ==> (k in Attach(h, d).devices <==> k in h.devices)
    ensures forall k :: k in h.devices && k != KeyOf(d) ==>
      Attach(h, d).heap.live[Attach(h, d).devices[k]] == h.heap.live[h.devices[k]]
  {
    NextIsUnused(h);
    AttachKeepsBalance(h, d);
    AttachFreesOnce(h, d);
    AttachKeepsOwned(h, d);
    hide Owned, FreedOnce, Balanced, KeyOf, Attach;
  }

  lemma NextIsUnused(h: Host)
    requires Inv(h)
    ensures h.heap.next !in h.heap.live && NULL !in h.heap.live && h.heap.next != NULL
  {
  }

  lemma RejectKeepsInv(h: Host)
    requires Inv(h)
    ensures Inv(Reject(h)) && Reject(h).devices == h.devices && Reject(h).heap.live == h.heap.live
  {
    hide Owned, Balanced, FreedOnce;
    NextIsUnused(h);
    AllocThenFree(h.heap, CLEARED_DEVICE, h.heap.next);
    FreeUndoesAlloc(h.heap, CLEARED_DEVICE);
    SameTable(h, Reject(h));
  }

  lemma FreeUndoesAlloc(h: Heap, d: Device)
    requires h.next !in h.live && h.next != NULL
    ensures Free(Alloc(h, d), h.next).live == h.live
  {
  }

  lemma SameTable(h: Host, g: Host)
    requires h.devices == g.devices && h.heap.live == g.heap.live && h.log == g.log && h.replaced == g.replaced
    ensures Owned(h) == Owned(g) && Balanced(h) == Balanced(g)
  {
  }

  lemma DetachKeepsBalance(h: Host, bus: byte, addr: byte)
    requires Balanced(h) && Linked(h) && NULL !in h.heap.live
    ensures Balanced(HostDel(h, bus, addr))
  {
    hide Count, DeviceName;
    var key := DeviceName(bus, addr);
    if key in h.devices && h.devices[key] != NULL {
      var gone := Detached(h.heap.live[h.devices[key]]);
      CountAppend(h.log, gone, true);
      CountAppend(h.log, gone, false);
      assert |h.devices - {key}| == |h.devices| - 1;
    }
  }

  lemma DetachKeepsOwned(h: Host, bus: byte, addr: byte)
    requires Owned(h) && NULL !in h.heap.live
    ensures Linked(h) && Owned(HostDel(h, bus, addr))
    ensures HostDel(h, bus, addr).devices == h.devices - {DeviceName(bus, addr)}
    ensures forall k :: k in HostDel(h, bus, addr).devices ==>
      HostDel(h, bus, addr).heap.live[h.devices[k]] == h.heap.live[h.devices[k]]
  {
    hide DeviceName;
    var key := DeviceName(bus, addr);
    if key !in h.devices {
      assert h.devices - {key} == h.devices;
    }
  }

  lemma DetachFreesOnce(h: Host, bus: byte, addr: byte)
    requires Owned(h) && FreedOnce(h.heap) && NULL !in h.heap.live
    ensures Linked(h) && FreedOnce(HostDel(h, bus, addr).heap)
  {
    hide DeviceName, FreedOnce, Occurrences;
    var key := DeviceName(bus, addr);
    if key in h.devices {
      FreeKeepsFreedOnce(h.heap, h.devices[key]);
    }
  }

  lemma DetachKeepsInv(h: Host, bus: byte, addr: byte)
    requires Inv(h)
    ensures Linked(h) && Inv(HostDel(h, bus, addr))
    ensures HostDel(h, bus, addr).devices == h.devices - {DeviceName(bus, addr)}
    ensures forall k :: k in HostDel(h, bus, addr).devices ==>
      HostDel(h, bus, addr).heap.live[h.devices[k]] == h.heap.live[h.devices[k]]
  {
    NextIsUnused(h);
    DetachKeepsOwned(h, bus, addr);
    DetachFreesOnce(h, bus, addr);
    DetachKeepsBalance(h, bus, addr);
    hide DeviceName, Owned, FreedOnce, Balanced, HostDel;
  }

  // ---------------------------------------------------------------- runs

  /** An attach with usbd's answers, or a detach. */
  datatype AnyEvent =
    | Up(bus: byte, addr: byte, usbd: Usbd)
    | Down(bus: byte, addr: byte)

  /** The source has a defined result for what the device sent. */
  predicate Defined(e: AnyEvent) {
    e.Up? ==> !Describe(e.bus, e.addr, e.usbd).Broken?
  }

  type HostEvent = e: AnyEvent | Defined(e) witness Down(0, 0)

  function Step(h: Host, e: HostEvent): Host {
    match e
    case Up(bus, addr, usbd) =>
      (match Describe(bus, addr, usbd)
       case Known(d) => Attach(h, d)
       case Refused(_) => Reject(h))
    case Down(bus, addr) => if Linked(h) then HostDel(h, bus, addr) else h
  }

  function Run(events: seq<HostEvent>): Host {
    if events == [] then EMPTY_HOST else Step(Run(events[..|events| - 1]), events[|events| - 1])
  }

  /** Which description the events leave for a bus and address: that of the last attach since the last detach. */
  function Newest(events: seq<HostEvent>, bus: byte, addr: byte): Option<Device> {
    if events == [] then None
    else
      var before, e := events[..|events| - 1], events[|events| - 1];
      match e
      case Up(b, a, usbd) =>
        (match Describe(b, a, usbd)
         case Known(d) => if d.busNum == bus && d.devAddr == addr then Some(d) else Newest(before, bus, addr)
         case Refused(_) => Newest(before, bus, addr))
      case Down(b, a) => if b == bus && a == addr then None else Newest(before, bus, addr)
  }

  /** What the table says about a bus and address. */
  function Lookup(h: Host, bus: byte, addr: byte): Option<Device> {
    var key := DeviceName(bus, addr);
    if key in h.devices && h.devices[key] in h.heap.live then Some(h.heap.live[h.devices[key]]) else None
  }

  lemma LookupStep(h: Host, e: HostEvent, bus: byte, addr: byte)
    requires Inv(h)
    ensures Inv(Step(h, e))
    ensures Lookup(Step(h, e), bus, addr) ==
      match e
      case Up(b, a, usbd) =>
        (match Describe(b, a, usbd)
         case Known(d) => if d.busNum == bus && d.devAddr == addr then Some(d) else Lookup(h, bus, addr)
         case Refused(_) => Lookup(h, bus, addr))
      case Down(b, a) => if b == bus && a == addr then None else Lookup(h, bus, addr)
  {
    hide Inv, HostDel, Attach, Reject, Describe, DeviceName;
    match e
    case Up(b, a, usbd) =>
      match Describe(b, a, usbd) {
        case Known(d) =>
          AttachKeepsInv(h, d);
          NamesDiffer(d.busNum, d.devAddr, bus, addr);
          EntriesAreLive(h);
          EntriesAreLive(Attach(h, d));
        case Refused(_) =>
          RejectKeepsInv(h);
      }
    case Down(b, a) =>
      DetachKeepsInv(h, b, a);
      NamesDiffer(b, a, bus, addr);
      EntriesAreLive(h);
      EntriesAreLive(HostDel(h, b, a));
  }

  /** Between two tables one place now reads as given, and every other place as before. */
  ghost predicate OnlyChange(h: Host, g: Host, bus: byte, addr: byte, now: Option<Device>) {
    forall b: byte, a: byte :: Lookup(g, b, a) == if b == bus && a == addr then now else Lookup(h, b, a)
  }

  lemma StepChanges(h: Host, e: HostEvent)
    requires Inv(h)
    ensures e.Down? ==> OnlyChange(h, Step(h, e), e.bus, e.addr, None)
    ensures e.Up? ==>
      match Describe(e.bus, e.addr, e.usbd)
      case Known(d) => OnlyChange(h, Step(h, e), d.busNum, d.devAddr, Some(d))
      case Refused(_) => OnlyChange(h, Step(h, e), 0, 0, Lookup(h, 0, 0))
  {
    hide Inv, Lookup, Step, Describe;
    forall b: byte, a: byte ensures Lookup(Step(h, e), b, a) ==
      match e
      case Up(bus, addr, usbd) =>
        (match Describe(bus, addr, usbd)
         case Known(d) => if d.busNum == b && d.devAddr == a then Some(d) else Lookup(h, b, a)
         case Refused(_) => Lookup(h, b, a))
      case Down(bus, addr) => if bus == b && addr == a then None else Lookup(h, b, a)
    {
      LookupStep(h, e, b, a);
    }
  }

  lemma NamesDiffer(b: byte, a: byte, bus: byte, addr: byte)
    ensures DeviceName(b, a) == DeviceName(bus, addr) <==> b == bus && a == addr
  {
    if DeviceName(b, a) == DeviceName(bus, addr) {
      DeviceNameInjective(b, a, bus, addr);
    }
  }

  lemma EntriesAreLive(h: Host)
    requires Inv(h)
    ensures forall k :: k in h.devices ==> h.devices[k] in h.heap.live
  {
  }

  /**
   Main result. After every run the invariant holds, and the table holds for every bus and address
   exactly the description of the last attach that no detach followed.
   */
  lemma {:induction false} RegistryExact(events: seq<HostEvent>, bus: byte, addr: byte)
    ensures Inv(Run(events))
    ensures Lookup(Run(events), bus, addr) == Newest(events, bus, addr)
    decreases |events|
  {
    hide Inv, Lookup, Step, Describe;
    if events == [] {
      EmptyInv(bus, addr);
    } else {
      var before, e := events[..|events| - 1], events[|events| - 1];
      RegistryExact(before, bus, addr);
      LookupStep(Run(before), e, bus, addr);
    }
  }

  lemma EmptyInv(bus: byte, addr: byte)
    ensures Inv(EMPTY_HOST) && Lookup(EMPTY_HOST, bus, addr) == None
  {
  }

  // ---------------------------------------------------------------- readings of the invariant

  predicate OnlyOwner(h: Host, key: string, p: Ptr) {
    key in h.devices && h.devices[key] == p && forall k :: k in h.devices && h.devices[k] == p ==> k == key
  }

  /** Every object ever handed out is owned by exactly one entry, or was deleted exactly once. */
  lemma OwnedOrDeletedOnce(events: seq<HostEvent>, p: Ptr)
    requires 0 < p < Run(events).heap.next
    ensures var h := Run(events);
      || (Occurrences(h.heap.freed, p) == 0 && exists k :: OnlyOwner(h, k, p))
      || (Occurrences(h.heap.freed, p) == 1 && forall k :: k in h.devices ==> h.devices[k] != p)
  {
    hide Run, Occurrences, KeyOf;
    RegistryExact(events, 0, 0);
    var h := Run(events);
    if p in h.heap.live {
      var k := KeyOf(h.heap.live[p]);
      assert OnlyOwner(h, k, p);
    }
  }

  /** Attached minus detached publish attempts minus silent replacements is the number of entries. */
  lemma BroadcastsAccountForEntries(events: seq<HostEvent>)
    ensures var h := Run(events);
      Count(h.log, true) - Count(h.log, false) - h.replaced == |h.devices|
  {
    hide Run, Occurrences, KeyOf, Count;
    RegistryExact(events, 0, 0);
  }

  /** What a listener to the broadcasts believes is attached: the device last announced and not withdrawn since. */
  function Replay(log: seq<Broadcast>, bus: byte, addr: byte): Option<Device> {
    if log == [] then None
    else
      var before, b := log[..|log| - 1], log[|log| - 1];
      if b.device.busNum != bus || b.device.devAddr != addr then Replay(before, bus, addr)
      else if b.Attached? then Some(b.device) else None
  }

  lemma ReplayAppend(log: seq<Broadcast>, b: Broadcast, bus: byte, addr: byte)
    ensures Replay(log + [b], bus, addr)
         == if b.device.busNum != bus || b.device.devAddr != addr then Replay(log, bus, addr)
            else if b.Attached? then Some(b.device) else None
  {
    assert (log + [b])[..|log|] == log;
  }

  /** The broadcast of a detach names the device that goes. */
  lemma DetachSays(h: Host, bus: byte, addr: byte)
    requires Inv(h)
    ensures Linked(h)
    ensures var g := HostDel(h, bus, addr);
      if Lookup(h, bus, addr).None? then g.log == h.log
      else
        var d := Lookup(h, bus, addr).value;
        g.log == h.log + [Detached(d)] && d.busNum == bus && d.devAddr == addr
  {
    hide FreedOnce, Balanced, DeviceName;
    NextIsUnused(h);
    var key := DeviceName(bus, addr);
    if key in h.devices {
      var d := h.heap.live[h.devices[key]];
      NamesDiffer(d.busNum, d.devAddr, bus, addr);
    }
  }

  lemma AttachSays(h: Host, d: Device)
    ensures Attach(h, d).log == h.log + [Attached(d)] && Reject(h).log == h.log
  {
  }

  lemma ReplayStep(h: Host, e: HostEvent, bus: byte, addr: byte)
    requires Inv(h) && Replay(h.log, bus, addr) == Lookup(h, bus, addr)
    ensures Replay(Step(h, e).log, bus, addr) == Lookup(Step(h, e), bus, addr)
  {
    hide Inv, Lookup, Attach, Reject, HostDel, Describe, Replay;
    LookupStep(h, e, bus, addr);
    match e
    case Up(b, a, usbd) =>
      match Describe(b, a, usbd) {
        case Known(d) =>
          AttachSays(h, d);
          ReplayAppend(h.log, Attached(d), bus, addr);
        case Refused(_) =>
          AttachSays(h, CLEARED_DEVICE);
      }
    case Down(b, a) =>
      DetachSays(h, b, a);
      if Lookup(h, b, a).Some? {
        ReplayAppend(h.log, Detached(Lookup(h, b, a).value), bus, addr);
      }
  }

  /** Main result. After every run the broadcasts, replayed, say about every bus and address what the table says. */
  lemma {:induction false} BroadcastsTellTable(events: seq<HostEvent>, bus: byte, addr: byte)
    ensures Replay(Run(events).log, bus, addr) == Lookup(Run(events), bus, addr)
    decreases |events|
  {
    hide Inv, Lookup, Step;
    if events == [] {
      EmptyInv(bus, addr);
    } else {
      var before, e := events[..|events| - 1], events[|events| - 1];
      BroadcastsTellTable(before, bus, addr);
      RegistryExact(before, bus, addr);
      ReplayStep(Run(before), e, bus, addr);
    }
  }

  // ---------------------------------------------------------------- attach events as seen by the sender

  /** usbd handed out a raw descriptor. */
  predicate HandedOut(u: Usbd) {
    u.rawCode == UecOk && u.raw != []
  }

  /** Whether the last event for this bus and address that succeeded was an attach. */
  predicate LastIsAttach(events: seq<HostEvent>, bus: byte, addr: byte) {
    if events == [] then false
    else
      var before, e := events[..|events| - 1], events[|events| - 1];
      if e.bus != bus || e.addr != addr || (e.Up? && !Describe(bus, addr, e.usbd).Known?)
      then LastIsAttach(before, bus, addr)
      else e.Up?
  }

  /** If every attach got a raw descriptor, an entry exists exactly where the last successful event was an attach. */
  lemma {:induction false} EntriesFollowEvents(events: seq<HostEvent>, bus: byte, addr: byte)
    requires forall e :: e in events && e.Up? ==> HandedOut(e.usbd)
    ensures Newest(events, bus, addr).Some? <==> LastIsAttach(events, bus, addr)
    ensures DeviceName(bus, addr) in Run(events).devices <==> LastIsAttach(events, bus, addr)
    decreases |events|
  {
    hide Describe, DeviceName, Inv, Step;
    RegistryExact(events, bus, addr);
    EntriesAreLive(Run(events));
    if events != [] {
      var before, e := events[..|events| - 1], events[|events| - 1];
      EntriesFollowEvents(before, bus, addr);
      assert e in events;
      if e.Up? && Describe(e.bus, e.addr, e.usbd).Known? {
        DescribedUnderOwnName(e.bus, e.addr, e.usbd);
      }
    }
  }

  /** Without a raw descriptor the attach of 1-2 makes an entry 0-0. */
  lemma EmptyDescriptorMisfiled()
    ensures var h := Run([Up(1, 2, Usbd(UecOk, UecServiceInvalidValue, [], map[]))]);
      Lookup(h, 0, 0).Some? && Lookup(h, 1, 2) == None
  {
    var u := Usbd(UecOk, UecServiceInvalidValue, [], map[]);
    var events: seq<HostEvent> := [Up(1, 2, u)];
    assert events[..0] == [];
    assert Newest([], 1, 2) == None && Describe(1, 2, u).Known?;
    DescribedUnderOwnName(1, 2, u);
    assert DescribeDevice(1, 2, u) == CLEARED_DEVICE;
    RegistryExact(events, 0, 0);
    RegistryExact(events, 1, 2);
  }
}
