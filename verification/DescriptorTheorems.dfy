/**
 The parser inverts the serializer, exactly when the source is well behaved; and its retry loop ends
 exactly when the specification says it returns.
 */
module DescriptorTheorems {
  import opened Machine
  import opened DeviceTree
  import opened DescriptorSpec
  import opened DescriptorLayout
  import opened Slices

  // ---------------------------------------------------------------- skipping

  lemma SkipOne(s: seq<byte>, kind: byte, cursor: nat, next: nat)
    requires |s| > HEADER_SIZE && cursor + HEADER_SIZE <= |s| && 0 < s[cursor] <= |s| && s[cursor + 1] != kind
    requires next == cursor + s[cursor]
    ensures FindDescriptor(s, kind, cursor) == FindDescriptor(s, kind, next)
  {
  }

  lemma FirstRaw(gap: seq<Raw>, kind: byte)
    requires gap != [] && ValidGap(gap, kind)
    ensures ValidRaw(gap[0]) && |gap[0]| >= HEADER_SIZE && gap[0][0] == |gap[0]| && gap[0][1] != kind
    ensures ValidGap(gap[1..], kind) && Flatten(gap) == gap[0] + Flatten(gap[1..])
  {
  }

  /** The scan passes over a gap of whole descriptors of other types, byte for byte. */
  lemma {:induction false} SkipGap(s: seq<byte>, gap: seq<Raw>, rest: seq<byte>, kind: byte, cursor: nat, stop: nat)
    requires ValidGap(gap, kind) && cursor <= |s| && s[cursor..] == Flatten(gap) + rest
    requires |s| > HEADER_SIZE && stop == cursor + |Flatten(gap)|
    ensures stop <= |s|
    ensures FindDescriptor(s, kind, cursor) == FindDescriptor(s, kind, stop)
    decreases |gap|
  {
    if gap != [] {
      var d, more, next := gap[0], gap[1..], cursor + |gap[0]|;
      FirstRaw(gap, kind);
      hide *;
      Assoc(d, Flatten(more), rest);
      Advance(s, cursor, d, Flatten(more) + rest);
      assert s[0 + cursor] == d[0] && s[1 + cursor] == d[1];
      SkipOne(s, kind, cursor, next);
      SkipGap(s, more, rest, kind, next, stop);
    }
  }

  /** After a gap, the scan stops at the next descriptor of the wanted type. */
  lemma FindAfterGap(s: seq<byte>, gap: seq<Raw>, d: Raw, rest: seq<byte>, kind: byte)
    requires ValidGap(gap, kind) && s == Flatten(gap) + d + rest
    requires |d| > HEADER_SIZE && d[0] == |d| && d[1] == kind
    ensures FindDescriptor(s, kind, 0) == Found(|Flatten(gap)|)
    ensures var p := |Flatten(gap)|;
      p + |d| <= |s| && s[p + |d|..] == rest && forall k :: 0 <= k < |d| ==> s[k + p] == d[k]
  {
    var p := |Flatten(gap)|;
    Assoc(Flatten(gap), d, rest);
    assert s[0..] == Flatten(gap) + (d + rest);
    SkipGap(s, gap, d + rest, kind, 0, p);
    Advance(s, 0, Flatten(gap), d + rest);
    Advance(s, p, d, rest);
    assert s[0 + p] == d[0] && s[1 + p] == d[1];
  }

  // ---------------------------------------------------------------- endpoints and interfaces

  lemma ParseEndpointInverts(e: EndpointLayout, rest: seq<byte>)
    requires ValidGap(e.gap, TYPE_ENDPOINT)
    ensures ParseEndpoint(Flatten(e.gap) + EndpointBytes(e) + rest)
         == Returned(UecOk, EndpointOf(e, UINT8_MAX), |Flatten(e.gap)| + ENDPOINT_SIZE)
  {
    hide Flatten, FindDescriptor;
    var s := Flatten(e.gap) + EndpointBytes(e) + rest;
    var p, d := |Flatten(e.gap)|, EndpointBytes(e);
    FindAfterGap(s, e.gap, d, rest, TYPE_ENDPOINT);
    assert s[0 + p] == d[0] && s[2 + p] == d[2] && s[3 + p] == d[3];
    assert s[4 + p] == d[4] && s[5 + p] == d[5] && s[6 + p] == d[6];
  }

  lemma {:induction false} ParseEndpointsInverts(
      s: seq<byte>, es: seq<EndpointLayout>, rest: seq<byte>, id: byte, cursor: nat, eps: seq<Endpoint>)
    requires forall e :: e in es ==> ValidGap(e.gap, TYPE_ENDPOINT)
    requires cursor <= |s| && s[cursor..] == SerializeEndpoints(es) + rest
    ensures ParseEndpoints(s, |es|, id, cursor, eps)
         == Returned(UecOk, eps + EndpointsOf(es, id), cursor + |SerializeEndpoints(es)|)
    decreases |es|
  {
    hide ParseEndpoint, EndpointsOf, Flatten, EndpointBytes;
    if es == [] {
      assert eps + EndpointsOf(es, id) == eps;
    } else {
      var e := es[0];
      var one := Flatten(e.gap) + EndpointBytes(e);
      var next := SerializeEndpoints(es[1..]) + rest;
      assert e in es;
      Assoc(one, SerializeEndpoints(es[1..]), rest);
      ParseEndpointInverts(e, next);
      Advance(s, cursor, one, next);
      ParseEndpointsInverts(s, es[1..], rest, id, cursor + |one|, eps + [EndpointOf(e, id)]);
      EndpointsOfCons(es, id);
      Assoc(eps, [EndpointOf(e, id)], EndpointsOf(es[1..], id));
    }
  }

  lemma EndpointsOfCons(es: seq<EndpointLayout>, id: byte)
    requires es != []
    ensures EndpointsOf(es, id) == [EndpointOf(es[0], id)] + EndpointsOf(es[1..], id)
  {
  }

  lemma InterfaceAfterGap(i: InterfaceLayout, after: seq<byte>, s: seq<byte>)
    requires ValidGap(i.gap, TYPE_INTERFACE) && |i.endpoints| < 0x100
    requires s == Flatten(i.gap) + InterfaceBytes(i) + after
    ensures var p := |Flatten(i.gap)|;
      && p + INTERFACE_SIZE <= |s| && s[p + INTERFACE_SIZE..] == after
      && var r := ParseEndpoints(s, |i.endpoints|, i.bInterfaceNumber, p + INTERFACE_SIZE, []);
         r.Returned? ==> ParseInterface(s) == Returned(UecOk, InterfaceOf(i).(endpoints := r.value), r.used)
  {
    hide FindDescriptor, ParseEndpoints, Flatten;
    var p, d := |Flatten(i.gap)|, InterfaceBytes(i);
    FindAfterGap(s, i.gap, d, after, TYPE_INTERFACE);
    assert s[0 + p] == d[0] && s[2 + p] == d[2] && s[3 + p] == d[3] && s[4 + p] == d[4];
    assert s[5 + p] == d[5] && s[6 + p] == d[6] && s[7 + p] == d[7] && s[8 + p] == d[8];
  }

  /** An interface descriptor comes back with exactly its own endpoints, and nothing else is consumed. */
  lemma ParseInterfaceInverts(i: InterfaceLayout, rest: seq<byte>)
    requires ValidInterface(i)
    ensures ParseInterface(SerializeInterface(i) + rest)
         == Returned(UecOk, InterfaceOf(i), |SerializeInterface(i)|)
  {
    hide ParseInterface, ParseEndpoints, Flatten, InterfaceBytes, SerializeEndpoints, EndpointsOf, ValidGap;
    var p, d, eps := |Flatten(i.gap)|, InterfaceBytes(i), SerializeEndpoints(i.endpoints);
    Assoc(Flatten(i.gap) + d, eps, rest);
    InterfaceAfterGap(i, eps + rest, Flatten(i.gap) + d + (eps + rest));
    ParseEndpointsInverts(Flatten(i.gap) + d + (eps + rest), i.endpoints, rest, i.bInterfaceNumber,
                          p + INTERFACE_SIZE, []);
    assert [] + EndpointsOf(i.endpoints, i.bInterfaceNumber) == EndpointsOf(i.endpoints, i.bInterfaceNumber);
  }

  /** What goes wrong when an interface is looked for in a tail: two bytes stop the scan before it moves. */
  function TailHazard(tail: seq<Raw>): Hazard {
    if |Flatten(tail)| == HEADER_SIZE then NeverReturns else ReadsOutside
  }

  /** Looking for an interface where only other descriptors are left consumes nothing or reads past them. */
  lemma NoInterfaceLeft(tail: seq<Raw>)
    requires tail != [] && ValidGap(tail, TYPE_INTERFACE)
    ensures Flatten(tail) != []
    ensures ParseInterface(Flatten(tail)) ==
      match TailHazard(tail)
      case NeverReturns => Returned(UecServiceInvalidValue, DEFAULT_INTERFACE, 0)
      case ReadsOutside => Undefined(ReadsOutside)
  {
    var s := Flatten(tail);
    assert tail[0] in tail && s[0] == tail[0][0] && s[1] == tail[0][1];
    if |s| > HEADER_SIZE {
      assert s[0..] == Flatten(tail) + [];
      SkipGap(s, tail, [], TYPE_INTERFACE, 0, |s|);
    }
  }

  // ---------------------------------------------------------------- the retry loop

  /** How many bytes the interface loop passes over when it still wants n usable interfaces. */
  function BytesUntil(items: seq<InterfaceLayout>, n: nat): (r: nat)
    requires forall i :: i in items ==> ValidInterface(i)
    ensures r <= |SerializeInterfaces(items)|
  {
    if n == 0 || items == [] then 0
    else |SerializeInterface(items[0])| + BytesUntil(items[1..], if items[0].endpoints == [] then n else n - 1)
  }

  /** What the first interface adds to the usable ones and to the bytes passed over. */
  lemma PassOne(items: seq<InterfaceLayout>, want: nat)
    requires items != [] && want > 0 && forall i :: i in items ==> ValidInterface(i)
    ensures items[0].endpoints == [] ==>
      && Usable(items) == Usable(items[1..])
      && BytesUntil(items, want) == |SerializeInterface(items[0])| + BytesUntil(items[1..], want)
    ensures items[0].endpoints != [] ==>
      && Usable(items) == [InterfaceOf(items[0])] + Usable(items[1..])
      && BytesUntil(items, want) == |SerializeInterface(items[0])| + BytesUntil(items[1..], want - 1)
  {
    hide SerializeInterface, InterfaceOf, ValidInterface;
  }

  lemma PassNone(items: seq<InterfaceLayout>, want: nat)
    requires items == [] || want == 0
    requires forall i :: i in items ==> ValidInterface(i)
    ensures BytesUntil(items, want) == 0
    ensures items == [] ==> Usable(items) == []
  {
  }

  lemma TakeCons(found: seq<Interface>, x: Interface, more: seq<Interface>, want: nat)
    requires want > 0
    ensures found + Take([x] + more, want) == found + [x] + Take(more, want - 1)
  {
  }

  lemma CollectUnfold(s: seq<byte>, limit: byte, cursor: nat, found: seq<Interface>, itf: Interface, next: nat)
    requires |found| < limit && cursor < next <= |s|
    requires ParseInterface(s[cursor..]) == Returned(UecOk, itf, next - cursor)
    ensures CollectInterfaces(s, limit, cursor, found)
         == CollectInterfaces(s, limit, next, if itf.endpoints == [] then found else found + [itf])
  {
    hide ParseInterface;
  }

  /** One turn of the retry loop: it takes the next interface whole, and keeps it iff it has endpoints. */
  lemma CollectStep(
      s: seq<byte>, items: seq<InterfaceLayout>, rest: seq<byte>, limit: byte, cursor: nat, found: seq<Interface>)
    requires items != [] && forall i :: i in items ==> ValidInterface(i)
    requires |found| < limit && cursor <= |s| && s[cursor..] == SerializeInterfaces(items) + rest
    ensures var next := cursor + |SerializeInterface(items[0])|;
      && next <= |s| && s[next..] == SerializeInterfaces(items[1..]) + rest
      && CollectInterfaces(s, limit, cursor, found) == CollectInterfaces(s, limit, next,
           if items[0].endpoints == [] then found else found + [InterfaceOf(items[0])])
  {
    hide ParseInterface, SerializeInterface, InterfaceOf, CollectInterfaces;
    var i := items[0];
    assert i in items;
    var one, more := SerializeInterface(i), SerializeInterfaces(items[1..]) + rest;
    Assoc(one, SerializeInterfaces(items[1..]), rest);
    hide SerializeInterfaces;
    ParseInterfaceInverts(i, more);
    Advance(s, cursor, one, more);
    CollectUnfold(s, limit, cursor, found, InterfaceOf(i), cursor + |one|);
  }

  lemma CollectDone(s: seq<byte>, limit: byte, cursor: nat, found: seq<Interface>)
    requires cursor <= |s| && (|found| >= limit || cursor == |s|)
    ensures CollectInterfaces(s, limit, cursor, found) == Returned(UecOk, found, cursor)
  {
  }

  /** Once enough interfaces are found, what follows in the buffer is not looked at. */
  lemma {:induction false} CollectEnough(
      s: seq<byte>, items: seq<InterfaceLayout>, rest: seq<byte>, limit: byte, cursor: nat, found: seq<Interface>)
    requires forall i :: i in items ==> ValidInterface(i)
    requires |found| <= limit <= |found| + |Usable(items)|
    requires cursor <= |s| && s[cursor..] == SerializeInterfaces(items) + rest
    ensures CollectInterfaces(s, limit, cursor, found)
         == Returned(UecOk, found + Take(Usable(items), limit - |found|), cursor + BytesUntil(items, limit - |found|))
    decreases |items|
  {
    hide SerializeInterface, InterfaceOf, CollectInterfaces, SerializeInterfaces, Usable, BytesUntil, ValidInterface;
    var want := limit - |found|;
    if want == 0 {
      PassNone(items, want);
      CollectDone(s, limit, cursor, found);
      assert found + Take(Usable(items), 0) == found;
    } else {
      if items == [] {
        PassNone(items, want);
      }
      CollectStep(s, items, rest, limit, cursor, found);
      PassOne(items, want);
      var next := cursor + |SerializeInterface(items[0])|;
      if items[0].endpoints == [] {
        CollectEnough(s, items[1..], rest, limit, next, found);
      } else {
        CollectEnough(s, items[1..], rest, limit, next, found + [InterfaceOf(items[0])]);
        TakeCons(found, InterfaceOf(items[0]), Usable(items[1..]), want);
      }
    }
  }

  lemma FlattenNil()
    ensures Flatten([]) == []
  {
  }

  lemma CollectNothing(s: seq<byte>, tail: seq<Raw>, limit: byte, cursor: nat, found: seq<Interface>)
    requires tail != [] && ValidGap(tail, TYPE_INTERFACE) && |found| < limit
    requires cursor <= |s| && s[cursor..] == Flatten(tail)
    ensures CollectInterfaces(s, limit, cursor, found) == Undefined(TailHazard(tail))
  {
    hide ParseInterface;
    NoInterfaceLeft(tail);
  }

  /** Short of interfaces, the loop runs to the end of the buffer... */
  lemma {:induction false} CollectAll(
      s: seq<byte>, items: seq<InterfaceLayout>, limit: byte, cursor: nat, found: seq<Interface>)
    requires forall i :: i in items ==> ValidInterface(i)
    requires |found| + |Usable(items)| < limit
    requires cursor <= |s| && s[cursor..] == SerializeInterfaces(items) + []
    ensures CollectInterfaces(s, limit, cursor, found)
         == Returned(UecOk, found + Usable(items), cursor + BytesUntil(items, limit - |found|))
    decreases |items|
  {
    hide SerializeInterface, InterfaceOf, CollectInterfaces, Usable, BytesUntil, ValidInterface;
    var want := limit - |found|;
    if items == [] {
      PassNone(items, want);
      assert found + [] == found;
      CollectDone(s, limit, cursor, found);
    } else {
      CollectStep(s, items, [], limit, cursor, found);
      hide SerializeInterfaces;
      PassOne(items, want);
      var next := cursor + |SerializeInterface(items[0])|;
      if items[0].endpoints == [] {
        CollectAll(s, items[1..], limit, next, found);
      } else {
        CollectAll(s, items[1..], limit, next, found + [InterfaceOf(items[0])]);
        Assoc(found, [InterfaceOf(items[0])], Usable(items[1..]));
      }
    }
  }

  /** ...and fails on anything left there. */
  lemma {:induction false} CollectShort(
      s: seq<byte>, items: seq<InterfaceLayout>, tail: seq<Raw>, limit: byte, cursor: nat, found: seq<Interface>)
    requires forall i :: i in items ==> ValidInterface(i)
    requires tail != [] && ValidGap(tail, TYPE_INTERFACE) && |found| + |Usable(items)| < limit
    requires cursor <= |s| && s[cursor..] == SerializeInterfaces(items) + Flatten(tail)
    ensures CollectInterfaces(s, limit, cursor, found) == Undefined(TailHazard(tail))
    decreases |items|
  {
    hide SerializeInterface, InterfaceOf, CollectInterfaces, Flatten, TailHazard, ValidGap, Usable, BytesUntil,
      ValidInterface;
    if items == [] {
      assert s[cursor..] == Flatten(tail);
      CollectNothing(s, tail, limit, cursor, found);
    } else {
      CollectStep(s, items, Flatten(tail), limit, cursor, found);
      hide SerializeInterfaces;
      PassOne(items, 1);
      var next := cursor + |SerializeInterface(items[0])|;
      if items[0].endpoints == [] {
        CollectShort(s, items[1..], tail, limit, next, found);
      } else {
        CollectShort(s, items[1..], tail, limit, next, found + [InterfaceOf(items[0])]);
      }
    }
  }

  /** Bytes ParseConfigDescriptor consumes: whole descriptors, up to the last interface it needs. */
  function BytesOf(c: ConfigLayout): nat
    requires ValidConfig(c)
  {
    CONFIG_SIZE + BytesUntil(c.interfaces, c.bNumInterfaces)
  }

  /**
   Main result. On every laid-out configuration the parser returns exactly when the configuration has as
   many usable interfaces as it announces, or when nothing follows its last interface; it then yields
   the first announced number of usable interfaces and consumes whole descriptors only. Otherwise it
   reads past the end, or spins if what follows is one bare descriptor header.
   */
  lemma ParseConfigExact(c: ConfigLayout)
    requires ValidConfig(c)
    ensures ParseConfig(SerializeConfig(c)).Returned? <==> Complete(c) || c.tail == []
    ensures Complete(c) || c.tail == [] ==>
      ParseConfig(SerializeConfig(c)) == Returned(UecOk, ConfigOf(c), BytesOf(c))
    ensures !Complete(c) && c.tail != [] ==> ParseConfig(SerializeConfig(c)) == Undefined(TailHazard(c.tail))
  {
    hide SerializeInterfaces, Flatten, ConfigBytes, Usable, CollectInterfaces, TailHazard;
    var s := SerializeConfig(c);
    ConfigPrefix(c, SerializeInterfaces(c.interfaces) + Flatten(c.tail), s);
    if Complete(c) {
      CollectEnough(s, c.interfaces, Flatten(c.tail), c.bNumInterfaces, CONFIG_SIZE, []);
    } else if c.tail == [] {
      FlattenNil();
      CollectAll(s, c.interfaces, c.bNumInterfaces, CONFIG_SIZE, []);
    } else {
      CollectShort(s, c.interfaces, c.tail, c.bNumInterfaces, CONFIG_SIZE, []);
    }
    assert [] + Take(Usable(c.interfaces), c.bNumInterfaces) == Take(Usable(c.interfaces), c.bNumInterfaces);
    assert [] + Usable(c.interfaces) == Usable(c.interfaces);
  }

  /** A complete configuration is parsed the same whatever bytes follow it. */
  lemma ParseCompleteConfig(c: ConfigLayout, rest: seq<byte>)
    requires ValidConfig(c) && Complete(c)
    ensures ParseConfig(SerializeConfig(c) + rest) == Returned(UecOk, ConfigOf(c), BytesOf(c))
  {
    hide SerializeInterfaces, Flatten, ConfigBytes, Usable, CollectInterfaces;
    var s := SerializeConfig(c) + rest;
    ConfigPrefix(c, SerializeInterfaces(c.interfaces) + (Flatten(c.tail) + rest), s);
    CollectEnough(s, c.interfaces, Flatten(c.tail) + rest, c.bNumInterfaces, CONFIG_SIZE, []);
    assert [] + Take(Usable(c.interfaces), c.bNumInterfaces) == Take(Usable(c.interfaces), c.bNumInterfaces);
  }

  lemma ConfigPrefix(c: ConfigLayout, rest: seq<byte>, s: seq<byte>)
    requires s == ConfigBytes(c) + rest
    ensures s[CONFIG_SIZE..] == rest
    ensures s[0] == CONFIG_SIZE && s[4] == c.bNumInterfaces && s[5] == c.bConfigurationValue
    ensures s[6] == c.iConfiguration && s[7] == c.bmAttributes && s[8] == c.bMaxPower
  {
  }

  // ---------------------------------------------------------------- several configurations

  /**
   Read as one stream, a second configuration is more interfaces of the first: its header is one more
   descriptor to skip.
   */
  function Merge(c1: ConfigLayout, c2: ConfigLayout): (m: ConfigLayout)
    requires ValidConfig(c1) && ValidConfig(c2)
    ensures ValidConfig(m)
  {
    var between := c1.tail + [ConfigBytes(c2)];
    assert forall d :: d in between ==> d in c1.tail || d == ConfigBytes(c2);
    if c2.interfaces == [] then
      assert forall d :: d in between + c2.tail ==> d in between || d in c2.tail;
      c1.(tail := between + c2.tail)
    else
      var i := c2.interfaces[0];
      assert i in c2.interfaces;
      assert forall d :: d in between + i.gap ==> d in between || d in i.gap;
      var first := i.(gap := between + i.gap);
      var items := c1.interfaces + [first] + c2.interfaces[1..];
      assert forall x :: x in items ==> x in c1.interfaces || x == first || x in c2.interfaces;
      c1.(interfaces := items, tail := c2.tail)
  }

  lemma {:induction false} FlattenAppend(a: seq<Raw>, b: seq<Raw>)
    ensures Flatten(a + b) == Flatten(a) + Flatten(b)
    decreases |a|
  {
    if a == [] {
      assert a + b == b;
    } else {
      FlattenAppend(a[1..], b);
      assert (a + b)[1..] == a[1..] + b;
    }
  }

  lemma {:induction false} UsableAppend(a: seq<InterfaceLayout>, b: seq<InterfaceLayout>)
    ensures Usable(a + b) == Usable(a) + Usable(b)
    decreases |a|
  {
    hide InterfaceOf;
    if a == [] {
      assert a + b == b;
    } else {
      UsableAppend(a[1..], b);
      assert (a + b)[1..] == a[1..] + b;
      if a[0].endpoints != [] {
        Assoc([InterfaceOf(a[0])], Usable(a[1..]), Usable(b));
      }
    }
  }

  lemma {:induction false} SerializeAppend(a: seq<InterfaceLayout>, b: seq<InterfaceLayout>)
    requires forall i :: i in a ==> ValidInterface(i)
    requires forall i :: i in b ==> ValidInterface(i)
    ensures forall i :: i in a + b ==> ValidInterface(i)
    ensures SerializeInterfaces(a + b) == SerializeInterfaces(a) + SerializeInterfaces(b)
    decreases |a|
  {
    hide SerializeInterface, ValidInterface;
    assert forall i :: i in a + b ==> i in a || i in b;
    if a == [] {
      assert a + b == b;
    } else {
      SerializeAppend(a[1..], b);
      assert (a + b)[1..] == a[1..] + b;
      Assoc(SerializeInterface(a[0]), SerializeInterfaces(a[1..]), SerializeInterfaces(b));
    }
  }

  lemma SameHeader(c: ConfigLayout, items: seq<InterfaceLayout>, tail: seq<Raw>)
    ensures ConfigBytes(c.(interfaces := items, tail := tail)) == ConfigBytes(c)
  {
  }

  lemma FlattenBetween(c1: ConfigLayout, c2: ConfigLayout, gap: seq<Raw>)
    ensures Flatten(c1.tail + [ConfigBytes(c2)] + gap) == Flatten(c1.tail) + (ConfigBytes(c2) + Flatten(gap))
  {
    hide ConfigBytes;
    var h := ConfigBytes(c2);
    FlattenAppend(c1.tail + [h], gap);
    FlattenAppend(c1.tail, [h]);
    assert Flatten([h]) == h + Flatten([]) == h;
    Assoc(Flatten(c1.tail), h, Flatten(gap));
  }

  lemma MergeWithoutInterfaces(c1: ConfigLayout, c2: ConfigLayout)
    requires ValidConfig(c1) && ValidConfig(c2) && c2.interfaces == []
    ensures SerializeConfig(Merge(c1, c2)) == SerializeConfig(c1) + SerializeConfig(c2)
  {
    hide ConfigBytes, Flatten;
    var m := Merge(c1, c2);
    var h := ConfigBytes(c2);
    SameHeader(c1, m.interfaces, m.tail);
    FlattenBetween(c1, c2, c2.tail);
    assert h + [] == h;
    assert SerializeConfig(c2) == h + Flatten(c2.tail);
    Assoc(ConfigBytes(c1) + SerializeInterfaces(c1.interfaces), Flatten(c1.tail), h + Flatten(c2.tail));
  }

  /** Putting more descriptors in front of the first interface only adds their bytes. */
  lemma WidenGap(items: seq<InterfaceLayout>, gap: seq<Raw>, before: seq<byte>)
    requires items != [] && forall i :: i in items ==> ValidInterface(i)
    requires ValidGap(gap, TYPE_INTERFACE) && Flatten(gap) == before + Flatten(items[0].gap)
    ensures var wide := [items[0].(gap := gap)] + items[1..];
      && (forall i :: i in wide ==> ValidInterface(i))
      && SerializeInterfaces(wide) == before + SerializeInterfaces(items)
      && Usable(wide) == Usable(items)
  {
    hide InterfaceBytes, SerializeEndpoints, Flatten;
    var i := items[0];
    assert i in items;
    var first := i.(gap := gap);
    var wide := [first] + items[1..];
    assert forall x :: x in wide ==> x == first || x in items;
    assert wide[1..] == items[1..];
    var d, es := InterfaceBytes(i), SerializeEndpoints(i.endpoints);
    assert InterfaceBytes(first) == d by {
      SameInterfaceHeader(i, gap);
    }
    Assoc(before, Flatten(i.gap), d);
    Assoc(before, Flatten(i.gap) + d, es);
    assert SerializeInterface(first) == before + SerializeInterface(i);
    Assoc(before, SerializeInterface(i), SerializeInterfaces(items[1..]));
  }

  lemma SameInterfaceHeader(i: InterfaceLayout, gap: seq<Raw>)
    requires |i.endpoints| < 0x100
    ensures InterfaceBytes(i.(gap := gap)) == InterfaceBytes(i)
  {
  }

  lemma MergeWithInterfaces(c1: ConfigLayout, c2: ConfigLayout)
    requires ValidConfig(c1) && ValidConfig(c2) && c2.interfaces != []
    ensures SerializeConfig(Merge(c1, c2)) == SerializeConfig(c1) + SerializeConfig(c2)
    ensures Usable(Merge(c1, c2).interfaces) == Usable(c1.interfaces) + Usable(c2.interfaces)
  {
    hide ConfigBytes, Flatten, SerializeInterfaces, Usable;
    var m, h := Merge(c1, c2), ConfigBytes(c2);
    var gap := c1.tail + [h] + c2.interfaces[0].gap;
    var wide := [c2.interfaces[0].(gap := gap)] + c2.interfaces[1..];
    assert m.interfaces == c1.interfaces + wide;
    assert m.interfaces[|c1.interfaces|] == wide[0] && wide[0] in m.interfaces && ValidInterface(wide[0]);
    FlattenBetween(c1, c2, c2.interfaces[0].gap);
    Assoc(Flatten(c1.tail), h, Flatten(c2.interfaces[0].gap));
    WidenGap(c2.interfaces, gap, Flatten(c1.tail) + h);
    SerializeAppend(c1.interfaces, wide);
    UsableAppend(c1.interfaces, wide);
    SameHeader(c1, m.interfaces, m.tail);
    var a, b, t := ConfigBytes(c1), SerializeInterfaces(c1.interfaces), Flatten(c1.tail);
    var x, y := SerializeInterfaces(c2.interfaces), Flatten(c2.tail);
    Regroup(a, b, t, h, x, y);
  }

  lemma MergeIsConcatenation(c1: ConfigLayout, c2: ConfigLayout)
    requires ValidConfig(c1) && ValidConfig(c2)
    ensures SerializeConfig(Merge(c1, c2)) == SerializeConfig(c1) + SerializeConfig(c2)
    ensures Usable(Merge(c1, c2).interfaces) == Usable(c1.interfaces) + Usable(c2.interfaces)
  {
    if c2.interfaces == [] {
      MergeWithoutInterfaces(c1, c2);
    } else {
      MergeWithInterfaces(c1, c2);
    }
  }

  /** All configurations of a device, read as the one stream the parser is given. */
  function MergeAll(cs: seq<ConfigLayout>): (m: ConfigLayout)
    requires cs != [] && forall c :: c in cs ==> ValidConfig(c)
    ensures ValidConfig(m)
    decreases |cs|
  {
    if |cs| == 1 then cs[0] else Merge(cs[0], MergeAll(cs[1..]))
  }

  lemma {:induction false} MergeAllIsStream(cs: seq<ConfigLayout>)
    requires cs != [] && forall c :: c in cs ==> ValidConfig(c)
    ensures SerializeConfig(MergeAll(cs)) == SerializeConfigs(cs)
    ensures Usable(cs[0].interfaces) <= Usable(MergeAll(cs).interfaces)
    ensures MergeAll(cs).(interfaces := [], tail := []) == cs[0].(interfaces := [], tail := [])
    decreases |cs|
  {
    if |cs| == 1 {
      assert cs[1..] == [];
    } else {
      MergeAllIsStream(cs[1..]);
      MergeIsConcatenation(cs[0], MergeAll(cs[1..]));
    }
  }

  /**
   Of a device with any number of configurations, the parser reports exactly the first one iff that one
   is complete, or everything behind it adds no usable interface and ends with an interface. Otherwise
   it reports interfaces of later configurations as its own, or has no defined result.
   */
  lemma FirstConfigurationExact(cs: seq<ConfigLayout>)
    requires cs != [] && forall c :: c in cs ==> ValidConfig(c)
    ensures
      var m := MergeAll(cs);
      var r := ParseConfig(SerializeConfigs(cs));
      && (r.Returned? <==> Complete(m) || m.tail == [])
      && (r.Returned? ==> r.code == UecOk && r.value == ConfigOf(m))
      && (r.Undefined? ==> r.hazard == TailHazard(m.tail))
      && ((r.Returned? && r.value == ConfigOf(cs[0])) <==>
            (Complete(cs[0]) || (Usable(m.interfaces) == Usable(cs[0].interfaces) && m.tail == [])))
  {
    hide ParseConfig, SerializeConfig, SerializeConfigs, MergeAll, Usable, TailHazard;
    MergeAllIsStream(cs);
    var m := MergeAll(cs);
    ParseConfigExact(m);
    var own, all := Usable(cs[0].interfaces), Usable(m.interfaces);
    assert own == all[..|own|];
    if Complete(cs[0]) {
      assert Take(own, m.bNumInterfaces) == Take(all, m.bNumInterfaces);
    } else if |all| > |own| {
      assert |Take(all, m.bNumInterfaces)| > |own|;
    }
  }

  const NO_ENDPOINTS := InterfaceLayout([], 0, 0, 1, 1, 0, 0, [])
  const ONE_ENDPOINT := InterfaceLayout([], 1, 0, 8, 6, 80, 0, [EndpointLayout([], 0x81, 2, 512, 0)])
  const TWO_INTERFACES :=
    ConfigLayout(41, 2, 1, 0, 0x80, 50, [NO_ENDPOINTS, ONE_ENDPOINT], [[7, 37, 1, 0, 0, 0, 0]])

  /**
   Legal bytes the parser does not survive: two interfaces, of which one has no endpoints, and a class
   descriptor at the end; the announced total length is that of the bytes.
   */
  lemma TrailingDescriptorFails()
    ensures var c := TWO_INTERFACES;
      && ValidConfig(c) && |SerializeConfig(c)| == c.wTotalLength && |c.interfaces| == c.bNumInterfaces
      && ParseConfig(SerializeConfig(c)) == Undefined(ReadsOutside)
  {
    var c := TWO_INTERFACES;
    assert Usable([ONE_ENDPOINT]) == [InterfaceOf(ONE_ENDPOINT)];
    assert |Flatten(c.tail)| == 7;
    ParseConfigExact(c);
    hide ParseConfig, Flatten, SerializeInterface;
    InterfaceLength(NO_ENDPOINTS);
    InterfaceLength(ONE_ENDPOINT);
    var second := c.interfaces[1..];
    assert second == [ONE_ENDPOINT] && SerializeInterfaces(second[1..]) == [];
    assert |SerializeInterfaces(second)| == 16;
    assert |SerializeInterfaces(c.interfaces)| == 9 + 16;
  }

  lemma InterfaceLength(i: InterfaceLayout)
    requires i.gap == [] && |i.endpoints| <= 1 && forall e :: e in i.endpoints ==> e.gap == []
    ensures ValidInterface(i) && |SerializeInterface(i)| == INTERFACE_SIZE + ENDPOINT_SIZE * |i.endpoints|
  {
    if i.endpoints != [] {
      assert SerializeEndpoints(i.endpoints[1..]) == [];
    }
  }

  lemma BareConfigLength(c: ConfigLayout, i: InterfaceLayout)
    requires c.interfaces == [i] && c.tail == []
    requires i.gap == [] && |i.endpoints| <= 1 && forall e :: e in i.endpoints ==> e.gap == []
    ensures ValidConfig(c)
    ensures |SerializeConfig(c)| == CONFIG_SIZE + INTERFACE_SIZE + ENDPOINT_SIZE * |i.endpoints|
  {
    InterfaceLength(i);
    hide SerializeInterface;
    assert SerializeInterfaces(c.interfaces[1..]) == [];
    assert SerializeInterfaces(c.interfaces) == SerializeInterface(i);
  }

  const FIRST_ZERO := InterfaceLayout([], 0, 0, 8, 6, 80, 0, [EndpointLayout([], 0x81, 2, 512, 0)])

  /** An interface of the second configuration reported as one of the first; both have their announced length. */
  lemma SecondConfigurationLeaksIn()
    ensures
      var c1 := ConfigLayout(18, 1, 1, 0, 0x80, 50, [NO_ENDPOINTS], []);
      var c2 := ConfigLayout(25, 1, 2, 0, 0x80, 50, [FIRST_ZERO], []);
      && ValidConfig(c1) && |SerializeConfig(c1)| == c1.wTotalLength
      && ValidConfig(c2) && |SerializeConfig(c2)| == c2.wTotalLength
      && ParseConfig(SerializeConfigs([c1, c2])).Returned?
      && ConfigOf(c1).interfaces == []
      && ParseConfig(SerializeConfigs([c1, c2])).value == ConfigOf(c1).(interfaces := [InterfaceOf(FIRST_ZERO)])
  {
    var c1 := ConfigLayout(18, 1, 1, 0, 0x80, 50, [NO_ENDPOINTS], []);
    var c2 := ConfigLayout(25, 1, 2, 0, 0x80, 50, [FIRST_ZERO], []);
    assert [c1, c2][1..] == [c2];
    assert Usable([FIRST_ZERO]) == [InterfaceOf(FIRST_ZERO)] && Usable([NO_ENDPOINTS]) == [];
    BareConfigLength(c1, NO_ENDPOINTS);
    BareConfigLength(c2, FIRST_ZERO);
    hide ParseConfig, SerializeConfig, SerializeConfigs;
    MergeIsConcatenation(c1, c2);
    FirstConfigurationExact([c1, c2]);
  }

  // ---------------------------------------------------------------- devices

  lemma ParseDeviceInverts(d: DeviceLayout, rest: seq<byte>, dev: Device)
    ensures ParseDevice(DeviceBytes(d) + rest, dev) ==
      (UecOk, dev.(vendorId := d.idVendor, productId := d.idProduct, klass := d.bDeviceClass,
                   subClass := d.bDeviceSubClass, descConfigCount := d.bNumConfigurations,
                   bMaxPacketSize0 := d.bMaxPacketSize0, bcdDevice := d.bcdDevice, bcdUSB := d.bcdUSB,
                   iManufacturer := d.iManufacturer, iProduct := d.iProduct, iSerialNumber := d.iSerialNumber))
  {
  }

  // ---------------------------------------------------------------- the loop, step by step

  datatype ScanState = Scanning(cursor: nat) | Ended

  /** One test and one body of a scan loop, as written. */
  function ScanStep(s: seq<byte>, kind: byte, cursor: nat): ScanState {
    if cursor >= |s| || HEADER_SIZE >= |s| || cursor + HEADER_SIZE > |s| || s[cursor] > |s| || s[cursor + 1] == kind
    then Ended
    else Scanning(cursor + s[cursor])
  }

  /** The scan loop after at most n bodies. */
  function IterateScan(s: seq<byte>, kind: byte, cursor: nat, n: nat): ScanState
    decreases n
  {
    match ScanStep(s, kind, cursor)
    case Ended => Ended
    case Scanning(next) => if n == 0 then Scanning(cursor) else IterateScan(s, kind, next, n - 1)
  }

  lemma {:induction false} EmptyDescriptorIsForever(s: seq<byte>, kind: byte, cursor: nat, n: nat)
    requires ScanStep(s, kind, cursor) == Scanning(cursor)
    ensures IterateScan(s, kind, cursor, n) == Scanning(cursor)
    decreases n
  {
    if n > 0 {
      EmptyDescriptorIsForever(s, kind, cursor, n - 1);
    }
  }

  /** No number of bodies ends the scan. */
  ghost predicate ScansForever(s: seq<byte>, kind: byte, cursor: nat) {
    forall n: nat :: IterateScan(s, kind, cursor, n).Scanning?
  }

  lemma ScanOn(s: seq<byte>, kind: byte, cursor: nat, next: nat)
    requires ScanStep(s, kind, cursor) == Scanning(next)
    ensures ScansForever(s, kind, cursor) <==> ScansForever(s, kind, next)
  {
    if ScansForever(s, kind, next) {
      forall n: nat ensures IterateScan(s, kind, cursor, n).Scanning? {
        assert n > 0 ==> IterateScan(s, kind, next, n - 1).Scanning?;
      }
    }
    if ScansForever(s, kind, cursor) {
      forall n: nat ensures IterateScan(s, kind, next, n).Scanning? {
        assert IterateScan(s, kind, cursor, n + 1).Scanning?;
      }
    }
  }

  /** On every input, the specification says that a scan never returns iff no number of bodies ends it. */
  lemma {:induction false} ScanLoopExact(s: seq<byte>, kind: byte, cursor: nat)
    ensures FindDescriptor(s, kind, cursor) == Lost(NeverReturns) <==> ScansForever(s, kind, cursor)
    decreases |s| - cursor
  {
    match ScanStep(s, kind, cursor)
    case Ended =>
      assert IterateScan(s, kind, cursor, 0).Ended?;
    case Scanning(next) =>
      if next == cursor {
        forall n: nat ensures IterateScan(s, kind, cursor, n).Scanning? {
          EmptyDescriptorIsForever(s, kind, cursor, n);
        }
      } else {
        ScanLoopExact(s, kind, next);
        ScanOn(s, kind, cursor, next);
      }
  }

  /** Some scan inside one call of ParseInterfaceDescriptor never returns: its own, or that of an endpoint. */
  ghost predicate InnerScanForever(s: seq<byte>) {
    || ScansForever(s, TYPE_INTERFACE, 0)
    || match FindDescriptor(s, TYPE_INTERFACE, 0)
       case Found(p) => p + INTERFACE_SIZE <= |s| && s[p] == INTERFACE_SIZE
         && EndpointScanForever(s, s[p + 4], s[p + 2], p + INTERFACE_SIZE, [])
       case _ => false
  }

  /** Of n endpoints, some are read, and the scan for the next one never returns. */
  ghost predicate EndpointScanForever(s: seq<byte>, n: nat, id: byte, cursor: nat, eps: seq<Endpoint>)
    requires cursor <= |s|
  {
    exists j: nat :: j < n && SpinsAfter(s, j, id, cursor, eps)
  }

  ghost predicate SpinsAfter(s: seq<byte>, j: nat, id: byte, cursor: nat, eps: seq<Endpoint>)
    requires cursor <= |s|
  {
    var r := ParseEndpoints(s, j, id, cursor, eps);
    r.Returned? && ScansForever(s[r.used..], TYPE_ENDPOINT, 0)
  }

  lemma EndpointSpins(s: seq<byte>)
    ensures ParseEndpoint(s) == Undefined(NeverReturns) <==> ScansForever(s, TYPE_ENDPOINT, 0)
  {
    hide ScansForever;
    ScanLoopExact(s, TYPE_ENDPOINT, 0);
  }

  lemma {:induction false} EndpointLoopSpins(s: seq<byte>, n: nat, id: byte, cursor: nat, eps: seq<Endpoint>)
    requires cursor <= |s|
    ensures ParseEndpoints(s, n, id, cursor, eps) == Undefined(NeverReturns)
       <==> EndpointScanForever(s, n, id, cursor, eps)
    decreases n
  {
    hide ParseEndpoint, ScansForever;
    if n > 0 {
      EndpointSpins(s[cursor..]);
      var e := ParseEndpoint(s[cursor..]);
      assert SpinsAfter(s, 0, id, cursor, eps) <==> e == Undefined(NeverReturns);
      if e.Returned? {
        var next, more := cursor + e.used, eps + [e.value.(interfaceId := id)];
        EndpointLoopSpins(s, n - 1, id, next, more);
        forall j: nat | j < n - 1
          ensures SpinsAfter(s, j + 1, id, cursor, eps) <==> SpinsAfter(s, j, id, next, more)
        {
        }
        if j: nat :| j < n && SpinsAfter(s, j, id, cursor, eps) {
          assert SpinsAfter(s, j - 1, id, next, more);
        }
      }
    }
  }

  /** On every input, a call for one interface is said never to return iff a scan inside it never returns. */
  lemma InterfaceSpinsExact(s: seq<byte>)
    ensures ParseInterface(s) == Undefined(NeverReturns) <==> InnerScanForever(s)
  {
    hide ScansForever, EndpointScanForever, FindDescriptor, ParseEndpoints;
    ScanLoopExact(s, TYPE_INTERFACE, 0);
    EmptyScan(s, TYPE_INTERFACE);
    match FindDescriptor(s, TYPE_INTERFACE, 0)
    case Found(p) =>
      if p + INTERFACE_SIZE <= |s| {
        EndpointLoopSpins(s, s[p + 4], s[p + 2], p + INTERFACE_SIZE, []);
      }
    case _ =>
  }

  lemma EmptyScan(s: seq<byte>, kind: byte)
    ensures s == [] ==> FindDescriptor(s, kind, 0) == Lost(ReadsOutside)
  {
  }

  datatype LoopState = LoopState(i: int, cursor: nat, interfaces: seq<Interface>)
  datatype Run = Running(st: LoopState) | Stopped(st: LoopState) | Hazardous(hazard: Hazard)

  /** One test and one body of the interface loop, as written: the index moves up, and back on a retry. */
  function LoopStep(s: seq<byte>, limit: byte, st: LoopState): Run
    requires st.cursor <= |s|
  {
    if !(st.i < limit && st.cursor < |s|) then Stopped(st)
    else match ParseInterface(s[st.cursor..])
      case Undefined(h) => Hazardous(h)
      case Returned(_, itf, used) =>
        if |itf.endpoints| > 0 then Running(LoopState(st.i + 1, st.cursor + used, st.interfaces + [itf]))
        else Running(LoopState(st.i - 1 + 1, st.cursor + used, st.interfaces))
  }

  /** The loop after at most n bodies. */
  function Iterate(s: seq<byte>, limit: byte, st: LoopState, n: nat): Run
    requires st.cursor <= |s|
    decreases n
  {
    match LoopStep(s, limit, st)
    case Running(st') => if n == 0 then Running(st) else Iterate(s, limit, st', n - 1)
    case other => other
  }

  /** A call that consumes no byte leaves the whole loop state as it was, so the loop never ends. */
  lemma {:induction false} ZeroProgressIsForever(s: seq<byte>, limit: byte, st: LoopState, n: nat)
    requires st.cursor < |s| && st.i < limit
    requires var r := ParseInterface(s[st.cursor..]); r.Returned? && r.used == 0
    ensures Iterate(s, limit, st, n) == Running(st)
    decreases n
  {
    hide ParseInterface;
    if n > 0 {
      ZeroProgressIsForever(s, limit, st, n - 1);
    }
  }

  lemma StepKeepsOutcome(s: seq<byte>, limit: byte, st: LoopState)
    requires st.cursor <= |s| && st.i == |st.interfaces|
    requires LoopStep(s, limit, st).Running? && LoopStep(s, limit, st).st.cursor > st.cursor
    ensures var st' := LoopStep(s, limit, st).st;
      && st'.i == |st'.interfaces| && st'.cursor <= |s|
      && CollectInterfaces(s, limit, st.cursor, st.interfaces)
         == CollectInterfaces(s, limit, st'.cursor, st'.interfaces)
  {
    hide ParseInterface;
  }

  /** No number of bodies ends the loop. */
  ghost predicate RunsForever(s: seq<byte>, limit: byte, st: LoopState)
    requires st.cursor <= |s|
  {
    forall n: nat :: Iterate(s, limit, st, n).Running?
  }

  /** What the specification says is what some number of bodies, or no number of bodies, leads to. */
  lemma {:induction false} LoopOutcome(s: seq<byte>, limit: byte, st: LoopState) returns (n: nat)
    requires st.cursor <= |s| && st.i == |st.interfaces|
    ensures match CollectInterfaces(s, limit, st.cursor, st.interfaces)
      case Returned(_, value, used) => Iterate(s, limit, st, n) == Stopped(LoopState(|value|, used, value))
      case Undefined(h) => Iterate(s, limit, st, n) == Hazardous(h) || (h == NeverReturns && RunsForever(s, limit, st))
    decreases |s| - st.cursor
  {
    hide ParseInterface;
    n := 0;
    match LoopStep(s, limit, st)
    case Stopped(_) =>
    case Hazardous(_) =>
    case Running(st') =>
      if st'.cursor == st.cursor {
        forall m: nat ensures Iterate(s, limit, st, m).Running? {
          ZeroProgressIsForever(s, limit, st, m);
        }
      } else {
        StepKeepsOutcome(s, limit, st);
        var m := LoopOutcome(s, limit, st');
        n := m + 1;
        if RunsForever(s, limit, st') {
          assert forall k: nat :: k > 0 ==> Iterate(s, limit, st, k) == Iterate(s, limit, st', k - 1);
        }
      }
  }

  lemma {:induction false} LoopEndsOnce(s: seq<byte>, limit: byte, st: LoopState, n: nat, m: nat)
    requires st.cursor <= |s| && !Iterate(s, limit, st, n).Running? && !Iterate(s, limit, st, m).Running?
    ensures Iterate(s, limit, st, n) == Iterate(s, limit, st, m)
    decreases n
  {
    hide ParseInterface;
    if LoopStep(s, limit, st).Running? {
      LoopEndsOnce(s, limit, LoopStep(s, limit, st).st, n - 1, m - 1);
    }
  }

  /**
   On every input, the loop as written ends iff the specification returns, reads outside the buffer iff
   the specification says so, and never returns iff it goes on forever or a call in its body does.
   */
  lemma RetryLoopExact(s: seq<byte>, limit: byte, st: LoopState)
    requires st.cursor <= |s| && st.i == |st.interfaces|
    ensures var r := CollectInterfaces(s, limit, st.cursor, st.interfaces);
      && (r.Returned? <==> exists n: nat :: Iterate(s, limit, st, n).Stopped?)
      && (r == Undefined(ReadsOutside) <==> exists n: nat :: Iterate(s, limit, st, n) == Hazardous(ReadsOutside))
      && (r == Undefined(NeverReturns) <==>
            RunsForever(s, limit, st) || exists n: nat :: Iterate(s, limit, st, n) == Hazardous(NeverReturns))
  {
    hide CollectInterfaces, Iterate;
    var n := LoopOutcome(s, limit, st);
    forall m: nat | !Iterate(s, limit, st, m).Running? && !Iterate(s, limit, st, n).Running?
      ensures Iterate(s, limit, st, m) == Iterate(s, limit, st, n)
    {
      LoopEndsOnce(s, limit, st, m, n);
    }
  }
}
