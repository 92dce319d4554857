/**
 The parser on arbitrary bytes, stated by positions and by the numbers of USB 2.0 chapter 9: where a scan
 stops and what each call then does, also on descriptors that no well-formed device sends.
 */
module MalformedDescriptors {
  import opened Machine
  import opened DeviceTree
  import opened DescriptorSpec
  import opened DescriptorLayout
  import opened DescriptorTheorems
  import opened Slices

  // ---------------------------------------------------------------- where a scan stops

  /** At p stands the header of a descriptor of another type that the scan passes over. */
  predicate Passes(s: seq<byte>, kind: byte, p: nat) {
    p + 2 <= |s| && 0 < s[p] <= |s| && s[p + 1] != kind
  }

  /** The positions of a scan from its start: each passes, and the next is its own length further on. */
  predicate Chain(s: seq<byte>, kind: byte, ps: seq<nat>) {
    && |ps| > 0 && ps[0] == 0
    && forall k :: 0 <= k < |ps| - 1 ==> Passes(s, kind, ps[k]) && ps[k + 1] == ps[k] + s[ps[k]]
  }

  /** The chain cannot be continued: this is where the scan stops. */
  predicate StopsAt(s: seq<byte>, kind: byte, ps: seq<nat>, p: nat) {
    Chain(s, kind, ps) && ps[|ps| - 1] == p && !Passes(s, kind, p)
  }

  lemma {:induction false} ChainFrom(s: seq<byte>, kind: byte, ps: seq<nat>) returns (all: seq<nat>, p: nat)
    requires Chain(s, kind, ps) && ps[|ps| - 1] <= |s| + 0xFF
    ensures StopsAt(s, kind, all, p)
    decreases |s| + 0x200 - ps[|ps| - 1]
  {
    var last := ps[|ps| - 1];
    if Passes(s, kind, last) {
      var next := last + s[last];
      all, p := ChainFrom(s, kind, ps + [next]);
    } else {
      all, p := ps, last;
    }
  }

  /** Every scan stops somewhere, if it is not trapped by a length of 0, where it also cannot be continued. */
  lemma EveryScanStops(s: seq<byte>, kind: byte) returns (ps: seq<nat>, p: nat)
    ensures StopsAt(s, kind, ps, p)
  {
    ps, p := ChainFrom(s, kind, [0]);
  }

  lemma {:induction false} ChainIsScan(s: seq<byte>, kind: byte, ps: seq<nat>, k: nat)
    requires |s| > 2 && Chain(s, kind, ps) && k < |ps|
    ensures FindDescriptor(s, kind, 0) == FindDescriptor(s, kind, ps[k])
    decreases k
  {
    if k > 0 {
      ChainIsScan(s, kind, ps, k - 1);
      assert Passes(s, kind, ps[k - 1]);
    }
  }

  /** On every buffer, what stands at the stopping position decides the scan. */
  lemma ScanDecided(s: seq<byte>, kind: byte, ps: seq<nat>, p: nat)
    requires StopsAt(s, kind, ps, p)
    ensures FindDescriptor(s, kind, 0) ==
      if |s| == 0 then Lost(ReadsOutside)
      else if |s| <= 2 then Refused(0)
      else if p + 2 > |s| then Lost(ReadsOutside)
      else if s[p] > |s| then Refused(p)
      else if s[p + 1] == kind then Found(p)
      else Lost(NeverReturns)
  {
    if |s| > 2 {
      ChainIsScan(s, kind, ps, |ps| - 1);
    }
  }

  // ---------------------------------------------------------------- one call on any bytes

  const NO_ENDPOINT := Endpoint(0, 0, -1, -1, 255)
  const NO_INTERFACE := Interface(0x7FFF_FFFF, 0x7FFF_FFFF, 0x7FFF_FFFF, 0x7FFF_FFFF, 0x7FFF_FFFF, "", [], 255)

  /** Main result. The endpoint call on every buffer: type 5, size 7, its fields, and every way to fail. */
  lemma EndpointDecided(s: seq<byte>, ps: seq<nat>, p: nat)
    requires StopsAt(s, 5, ps, p)
    ensures ParseEndpoint(s) ==
      if |s| <= 2 then Returned(UecServiceInvalidValue, NO_ENDPOINT, 0)
      else if p + 2 > |s| then Undefined(ReadsOutside)
      else if s[p] > |s| then Returned(UecServiceInvalidValue, NO_ENDPOINT, p)
      else if s[p + 1] != 5 then Undefined(NeverReturns)
      else if p + 7 > |s| then Undefined(ReadsOutside)
      else if s[p] != 7 then Returned(UecServiceInvalidValue, NO_ENDPOINT, p)
      else Returned(UecOk, Endpoint(s[p + 2], s[p + 3], s[p + 6], s[p + 4] + 0x100 * (s[p + 5] as int), 255), p + 7)
  {
    hide FindDescriptor, StopsAt;
    ScanDecided(s, 5, ps, p);
  }

  /** Main result. The interface call on every buffer: type 4, size 9, its fields, and every way to fail. */
  lemma InterfaceDecided(s: seq<byte>, ps: seq<nat>, p: nat)
    requires StopsAt(s, 4, ps, p)
    ensures ParseInterface(s) ==
      if |s| <= 2 then Returned(UecServiceInvalidValue, NO_INTERFACE, 0)
      else if p + 2 > |s| then Undefined(ReadsOutside)
      else if s[p] > |s| then Returned(UecServiceInvalidValue, NO_INTERFACE, p)
      else if s[p + 1] != 4 then Undefined(NeverReturns)
      else if p + 9 > |s| then Undefined(ReadsOutside)
      else if s[p] != 9 then Returned(UecServiceInvalidValue, NO_INTERFACE, p)
      else
        match ParseEndpoints(s, s[p + 4], s[p + 2], p + 9, [])
        case Undefined(h) => Undefined(h)
        case Returned(_, eps, used) =>
          Returned(UecOk, Interface(s[p + 2], s[p + 7], s[p + 5], s[p + 6], s[p + 3], "", eps, s[p + 8]), used)
  {
    hide FindDescriptor, ParseEndpoints, StopsAt;
    ScanDecided(s, 4, ps, p);
  }

  /** A configuration is refused exactly if its header is too short or has another size than 9. */
  lemma ConfigRefusedExact(s: seq<byte>)
    ensures |s| < 9 ==> ParseConfig(s) == Returned(UecServiceInvalidValue, Config(-1, 0, [], -1, "", 255), 0)
    ensures |s| >= 9 && s[0] != 9 ==>
      ParseConfig(s) == Returned(UecServiceInvalidValue, Config(-1, 0, [], -1, "", 255), 9)
    ensures |s| >= 9 && s[0] == 9 ==>
      match CollectInterfaces(s, s[4], 9, [])
      case Undefined(h) => ParseConfig(s) == Undefined(h)
      case Returned(_, itfs, used) =>
        ParseConfig(s) == Returned(UecOk, Config(s[5], s[7], itfs, s[8], "", s[6]), used)
  {
    hide CollectInterfaces;
  }

  /** A device descriptor is accepted exactly if it has 18 bytes and says so. */
  lemma DeviceDecided(s: seq<byte>, dev: Device)
    ensures ParseDevice(s, dev) ==
      if |s| < 18 || s[0] != 18 then (UecServiceInvalidValue, dev)
      else
        (UecOk,
         dev.(bcdUSB := s[2] + 0x100 * (s[3] as int), klass := s[4], subClass := s[5], bMaxPacketSize0 := s[7],
              vendorId := s[8] + 0x100 * (s[9] as int), productId := s[10] + 0x100 * (s[11] as int),
              bcdDevice := s[12] + 0x100 * (s[13] as int), iManufacturer := s[14], iProduct := s[15],
              iSerialNumber := s[16], descConfigCount := s[17]))
  {
  }

  // ---------------------------------------------------------------- descriptors of another size

  lemma WrongSizeEndpoint(gap: seq<Raw>, d: Raw, rest: seq<byte>)
    requires ValidGap(gap, 5) && ValidRaw(d) && |d| > 2 && d[1] == 5 && |d| != 7
    ensures ParseEndpoint(Flatten(gap) + d + rest) ==
      if |d| + |rest| < 7 then Undefined(ReadsOutside)
      else Returned(UecServiceInvalidValue, NO_ENDPOINT, |Flatten(gap)|)
  {
    hide FindDescriptor, Flatten;
    var s := Flatten(gap) + d + rest;
    FindAfterGap(s, gap, d, rest, 5);
    assert s[0 + |Flatten(gap)|] == d[0];
  }

  function Blank(n: nat, id: byte): (r: seq<Endpoint>)
    ensures |r| == n && forall k :: 0 <= k < n ==> r[k] == Endpoint(0, 0, -1, -1, id)
  {
    seq(n, _ => Endpoint(0, 0, -1, -1, id))
  }

  /**
   An endpoint descriptor whose size is not 7, such as the 9 bytes of USB Audio 1.0, is never passed: it
   and all further endpoints of the interface come out blank, with the interface's id, and no more than
   the descriptors before it are consumed.
   */
  lemma {:induction false} WrongSizeEndpointsExact(
      s: seq<byte>, gap: seq<Raw>, d: Raw, rest: seq<byte>, n: nat, id: byte, cursor: nat, eps: seq<Endpoint>)
    requires cursor <= |s| && s[cursor..] == Flatten(gap) + d + rest && n > 0
    requires ValidGap(gap, 5) && ValidRaw(d) && |d| > 2 && d[1] == 5 && |d| != 7
    ensures ParseEndpoints(s, n, id, cursor, eps) ==
      if |d| + |rest| < 7 then Undefined(ReadsOutside)
      else Returned(UecOk, eps + Blank(n, id), cursor + |Flatten(gap)|)
    decreases n
  {
    hide ParseEndpoint;
    var stop := cursor + |Flatten(gap)|;
    WrongSizeEndpoint(gap, d, rest);
    if |d| + |rest| >= 7 {
      var more := eps + [Endpoint(0, 0, -1, -1, id)];
      assert eps + Blank(n, id) == more + Blank(n - 1, id);
      if n > 1 {
        Assoc(Flatten(gap), d, rest);
        Advance(s, cursor, Flatten(gap), d + rest);
        assert Flatten([]) + d + rest == d + rest;
        WrongSizeEndpointsExact(s, [], d, rest, n - 1, id, stop, more);
      } else {
        assert ParseEndpoints(s, 0, id, stop, more) == Returned(UecOk, more, stop);
        assert more + Blank(0, id) == more;
      }
    }
  }

  /** So an interface with such an endpoint keeps its own fields and loses all its endpoints from there on. */
  lemma WrongSizeEndpointBlanksInterface(i: InterfaceLayout, gap: seq<Raw>, d: Raw, rest: seq<byte>)
    requires ValidGap(i.gap, 4) && 0 < |i.endpoints| < 0x100
    requires ValidGap(gap, 5) && ValidRaw(d) && |d| > 2 && d[1] == 5 && |d| != 7 && |d| + |rest| >= 7
    ensures ParseInterface(Flatten(i.gap) + InterfaceBytes(i) + (Flatten(gap) + d + rest))
         == Returned(UecOk, InterfaceOf(i).(endpoints := Blank(|i.endpoints|, i.bInterfaceNumber)),
                     |Flatten(i.gap)| + 9 + |Flatten(gap)|)
  {
    hide ParseInterface, ParseEndpoints, Flatten, InterfaceBytes, ValidGap, InterfaceOf;
    var after := Flatten(gap) + d + rest;
    var s := Flatten(i.gap) + InterfaceBytes(i) + after;
    var n, cursor := |i.endpoints|, |Flatten(i.gap)| + 9;
    InterfaceAfterGap(i, after, s);
    WrongSizeEndpointsExact(s, gap, d, rest, n, i.bInterfaceNumber, cursor, []);
    assert [] + Blank(n, i.bInterfaceNumber) == Blank(n, i.bInterfaceNumber);
  }

  lemma WrongSizeInterface(gap: seq<Raw>, d: Raw, rest: seq<byte>)
    requires ValidGap(gap, 4) && ValidRaw(d) && |d| > 2 && d[1] == 4 && |d| != 9
    ensures ParseInterface(Flatten(gap) + d + rest) ==
      if |d| + |rest| < 9 then Undefined(ReadsOutside)
      else Returned(UecServiceInvalidValue, NO_INTERFACE, |Flatten(gap)|)
  {
    hide FindDescriptor, Flatten, ParseEndpoints;
    var s := Flatten(gap) + d + rest;
    FindAfterGap(s, gap, d, rest, 4);
    assert s[0 + |Flatten(gap)|] == d[0];
  }

  /** An interface descriptor whose size is not 9 stops the retry loop for ever, or is read past the end. */
  lemma WrongSizeInterfaceSpins(
      s: seq<byte>, gap: seq<Raw>, d: Raw, rest: seq<byte>, limit: byte, cursor: nat, found: seq<Interface>)
    requires cursor <= |s| && s[cursor..] == Flatten(gap) + d + rest && |found| < limit
    requires ValidGap(gap, 4) && ValidRaw(d) && |d| > 2 && d[1] == 4 && |d| != 9
    ensures CollectInterfaces(s, limit, cursor, found)
         == Undefined(if |d| + |rest| < 9 then ReadsOutside else NeverReturns)
  {
    hide ParseInterface, Flatten;
    var stop := cursor + |Flatten(gap)|;
    WrongSizeInterface(gap, d, rest);
    Assoc(Flatten(gap), d, rest);
    Advance(s, cursor, Flatten(gap), d + rest);
    FlattenNil();
    assert Flatten([]) + d + rest == d + rest;
    WrongSizeInterface([], d, rest);
    SpinsHere(s, limit, stop, found);
  }

  lemma SpinsHere(s: seq<byte>, limit: byte, cursor: nat, found: seq<Interface>)
    requires cursor < |s| && |found| < limit
    ensures var r := ParseInterface(s[cursor..]);
      && (r.Undefined? ==> CollectInterfaces(s, limit, cursor, found) == Undefined(r.hazard))
      && (r.Returned? && r.used == 0 ==> CollectInterfaces(s, limit, cursor, found) == Undefined(NeverReturns))
  {
    hide ParseInterface;
  }
}
