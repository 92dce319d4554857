/** Which bundle may open which device: a table from device names to lists of bundles. */
module RightManager {
  import opened Machine

  type RightMap = map<string, seq<string>>

  predicate Has(m: RightMap, device: string, bundle: string) {
    device in m && bundle in m[device]
  }

  /** std::map insertion: an existing key keeps its value. */
  function Insert(m: RightMap, device: string, bundles: seq<string>): RightMap {
    if device in m then m else m[device := bundles]
  }

  /** The table with one more right. */
  function Added(m: RightMap, device: string, bundle: string): RightMap {
    if Has(m, device, bundle) then m
    else m[device := (if device in m then m[device] else []) + [bundle]]
  }

  class UsbRightManager {
    var rightMap: RightMap

    constructor ()
      ensures rightMap == map[]
    {
      rightMap := map[];
    }

    method HasRight(deviceName: string, bundleName: string) returns (r: bool)
      ensures r <==> Has(rightMap, deviceName, bundleName)
    {
      if deviceName !in rightMap {
        return false;
      }
      var bundleNameList := rightMap[deviceName];
      if bundleName !in bundleNameList {
        return false;
      }
      r := true;
    }

    /** After a push_back onto an existing list the source still inserts a fresh one; that changes nothing. */
    method AddDeviceRight(deviceName: string, bundleName: string) returns (r: bool)
      modifies this
      ensures rightMap == Added(old(rightMap), deviceName, bundleName)
      ensures r <==> !Has(old(rightMap), deviceName, bundleName)
    {
      if deviceName in rightMap {
        var v := rightMap[deviceName];
        if bundleName in v {
          return false;
        }
        rightMap := rightMap[deviceName := rightMap[deviceName] + [bundleName]];
      }
      var bundleNameList := [bundleName];
      rightMap := Insert(rightMap, deviceName, bundleNameList);
      assert [] + [bundleName] == bundleNameList;
      r := true;
    }

    method RemoveDeviceRight(deviceName: string) returns (r: bool)
      modifies this
      ensures rightMap == old(rightMap) - {deviceName}
      ensures r <==> deviceName in old(rightMap)
    {
      if deviceName in rightMap {
        rightMap := rightMap - {deviceName};
        return true;
      }
      r := false;
    }

    /** agreed is the user's answer to the dialog. */
    method RequestRight(deviceName: string, bundleName: string, agreed: bool) returns (code: Code)
      modifies this
      ensures rightMap == if agreed then Added(old(rightMap), deviceName, bundleName) else old(rightMap)
      ensures code == UecOk <==> Has(rightMap, deviceName, bundleName)
      ensures code != UecOk ==> code == UecServicePermissionDenied
    {
      var has := HasRight(deviceName, bundleName);
      if has {
        return UecOk;
      }
      if !agreed {
        return UecServicePermissionDenied;
      }
      var added := AddDeviceRight(deviceName, bundleName);
      has := HasRight(deviceName, bundleName);
      code := if !added then UecServiceInvalidValue else if has then UecOk else UecServiceInvalidValue;
    }
  }

  // ---------------------------------------------------------------- runs

  datatype RightOp =
    | Request(device: string, bundle: string, agreed: bool)
    | Remove(device: string)

  function Apply(m: RightMap, op: RightOp): RightMap {
    match op
    case Request(d, b, agreed) => if agreed then Added(m, d, b) else m
    case Remove(d) => m - {d}
  }

  function Run(ops: seq<RightOp>): RightMap {
    if ops == [] then map[] else Apply(Run(ops[..|ops| - 1]), ops[|ops| - 1])
  }

  /** Some agreed request for this device and bundle is not followed by a removal of the device. */
  ghost predicate GrantStands(ops: seq<RightOp>, device: string, bundle: string) {
    exists i :: 0 <= i < |ops| && ops[i] == Request(device, bundle, true) && NotRemovedFrom(ops, device, i)
  }

  ghost predicate NotRemovedFrom(ops: seq<RightOp>, device: string, i: nat) {
    forall j :: i < j < |ops| ==> ops[j] != Remove(device)
  }

  lemma GrantStandsStep(ops: seq<RightOp>, op: RightOp, device: string, bundle: string)
    ensures GrantStands(ops + [op], device, bundle)
       <==> op == Request(device, bundle, true) || (GrantStands(ops, device, bundle) && op != Remove(device))
  {
    var all := ops + [op];
    if op == Request(device, bundle, true) {
      assert all[|ops|] == op && NotRemovedFrom(all, device, |ops|);
    } else if GrantStands(ops, device, bundle) && op != Remove(device) {
      var i :| 0 <= i < |ops| && ops[i] == Request(device, bundle, true) && NotRemovedFrom(ops, device, i);
      assert all[i] == ops[i] && NotRemovedFrom(all, device, i);
    }
    if GrantStands(all, device, bundle) && op != Request(device, bundle, true) {
      var i :| 0 <= i < |all| && all[i] == Request(device, bundle, true) && NotRemovedFrom(all, device, i);
      assert i < |ops| && ops[i] == all[i] && all[|ops|] == op;
      assert forall j :: i < j < |ops| ==> ops[j] == all[j];
    }
  }

  predicate NoDuplicates(m: RightMap) {
    forall d, i, j :: d in m && 0 <= i < j < |m[d]| ==> m[d][i] != m[d][j]
  }

  /** Over every run, a right holds exactly when a grant stands, and no list names a bundle twice. */
  lemma {:induction false} RightsExact(ops: seq<RightOp>, device: string, bundle: string)
    ensures Has(Run(ops), device, bundle) <==> GrantStands(ops, device, bundle)
    ensures NoDuplicates(Run(ops))
    decreases |ops|
  {
    if ops != [] {
      var before, op := ops[..|ops| - 1], ops[|ops| - 1];
      assert before + [op] == ops;
      RightsExact(before, device, bundle);
      GrantStandsStep(before, op, device, bundle);
    }
  }
}
