/** The device-mode state: connected or not, and the functions switched on; and the broadcast about it. */
module StateBroadcast {
  import opened Machine
  import opened FunctionList

  /** Statuses of usbd's device events; every other value is OtherStatus. */
  datatype Status = ActUpDevice | ActDownDevice | ActDevUp | OtherStatus

  /** The parameters of one state broadcast: the flag, and the function names set to true. */
  datatype StateEvent = StateEvent(connected: bool, names: set<string>)

  /** Exactly the names of the settable bits of a mask, and "none" for any bits above them. */
  function NamesSet(mask: bv32): set<string> {
    Names(On(mask, FUNCTION_ACM), On(mask, FUNCTION_ECM), On(mask, FUNCTION_HDC), On(mask, !FUNCTION_SETTABLE))
  }

  predicate On(mask: bv32, bits: bv32) {
    And(mask, bits) != 0
  }

  function And(x: bv32, y: bv32): bv32 {
    x & y
  }

  function Names(acm: bool, ecm: bool, hdc: bool, other: bool): set<string> {
    (if acm then {"acm"} else {}) + (if ecm then {"ecm"} else {})
    + (if hdc then {"hdc"} else {}) + (if other then {"none"} else {})
  }

  /** seen are the positions the loop has passed, bit is the next one; bit is 0 once all 32 are passed. */
  predicate AtBit(bit: bv32, seen: bv32) {
    && (seen << 1) | 1 == seen | bit
    && seen & bit == 0
    && (bit == 1 || bit == 2 || bit == 4 || bit & FUNCTION_SETTABLE == 0)
  }

  function Left(f: bv32, seen: bv32): bv32 {
    f & !seen
  }

  function Passed(f: bv32, seen: bv32): bv32 {
    f & seen
  }

  lemma MoveOn(f: bv32, bit: bv32, seen: bv32)
    requires AtBit(bit, seen) && Left(f, seen) != 0
    ensures bit != 0 && AtBit(bit << 1, seen | bit)
    ensures Left(f, seen) & bit == f & bit
    ensures !(seen | bit) < !seen
  {
  }

  lemma ClearBit(f: bv32, bit: bv32, seen: bv32)
    ensures f & bit == 0 ==> Left(f, seen | bit) == Left(f, seen) && Passed(f, seen | bit) == Passed(f, seen)
    ensures Left(f, seen | bit) == Left(f, seen) & !bit
  {
    LeftSplits(f, bit, seen);
    PassedSplits(f, bit, seen);
    if f & bit == 0 {
      NotIn(f, bit);
    }
    hide Left, Passed;
  }

  lemma LeftSplits(f: bv32, bit: bv32, seen: bv32)
    ensures Left(f, seen | bit) == Left(f, seen) & !bit
    ensures Left(f, seen) & !bit == Left(f & !bit, seen)
  {
  }

  lemma PassedSplits(f: bv32, bit: bv32, seen: bv32)
    ensures Passed(f, seen | bit) == Passed(f, seen) | (f & bit)
  {
  }

  lemma NotIn(f: bv32, bit: bv32)
    requires f & bit == 0
    ensures f & !bit == f
  {
  }

  /** Printing one bit gives its name if it is settable, and "none" otherwise. */
  lemma OneBitText(bit: bv32)
    requires bit != 0 && (bit == 1 || bit == 2 || bit == 4 || bit & FUNCTION_SETTABLE == 0)
    ensures ToText(bit) == if bit == 1 then "acm" else if bit == 2 then "ecm" else if bit == 4 then "hdc" else "none"
  {
  }

  /** Naming one more bit that is on. */
  lemma NameStep(f: bv32, bit: bv32, seen: bv32)
    requires bit != 0 && (bit == 1 || bit == 2 || bit == 4 || bit & FUNCTION_SETTABLE == 0)
    requires f & bit != 0
    ensures NamesSet(Passed(f, seen | bit)) == NamesSet(Passed(f, seen)) + {ToText(bit)}
  {
    OneBitText(bit);
    var now, before, x := Passed(f, seen | bit), Passed(f, seen), f & bit;
    BitIn(x, f, bit);
    Distribute(f, bit, seen, FUNCTION_ACM);
    Distribute(f, bit, seen, FUNCTION_ECM);
    Distribute(f, bit, seen, FUNCTION_HDC);
    Distribute(f, bit, seen, !FUNCTION_SETTABLE);
    hide ToText, Passed, On, Names;
    AddName(On(before, FUNCTION_ACM), On(before, FUNCTION_ECM), On(before, FUNCTION_HDC),
            On(before, !FUNCTION_SETTABLE), bit == 1, bit == 2, bit == 4);
  }

  lemma Distribute(f: bv32, bit: bv32, seen: bv32, m: bv32)
    ensures On(Passed(f, seen | bit), m) <==> On(Passed(f, seen), m) || On(f & bit, m)
  {
    DistributeBits(f, bit, seen, m);
    hide And, Passed;
    NonZeroOr(And(Passed(f, seen | bit), m), And(Passed(f, seen), m), And(f & bit, m));
  }

  lemma DistributeBits(f: bv32, bit: bv32, seen: bv32, m: bv32)
    ensures And(Passed(f, seen | bit), m) == And(Passed(f, seen), m) | And(f & bit, m)
  {
  }

  lemma NonZeroOr(z: bv32, x: bv32, y: bv32)
    requires z == x | y
    ensures z != 0 <==> x != 0 || y != 0
  {
  }

  lemma BitIn(x: bv32, f: bv32, bit: bv32)
    requires x == f & bit && x != 0 && (bit == 1 || bit == 2 || bit == 4 || bit & FUNCTION_SETTABLE == 0)
    ensures On(x, FUNCTION_ACM) <==> bit == 1
    ensures On(x, FUNCTION_ECM) <==> bit == 2
    ensures On(x, FUNCTION_HDC) <==> bit == 4
    ensures On(x, !FUNCTION_SETTABLE) <==> bit != 1 && bit != 2 && bit != 4
  {
  }

  lemma AddName(acm: bool, ecm: bool, hdc: bool, other: bool, one: bool, two: bool, four: bool)
    requires !(one && two) && !(one && four) && !(two && four)
    ensures Names(acm || one, ecm || two, hdc || four, other || (!one && !two && !four))
         == Names(acm, ecm, hdc, other) + {if one then "acm" else if two then "ecm" else if four then "hdc" else "none"}
  {
  }

  lemma Start(f: bv32)
    ensures AtBit(1, 0) && Left(f, 0) == f && NamesSet(Passed(f, 0)) == {}
  {
  }

  lemma SettableOrNot(bit: bv32, seen: bv32)
    requires AtBit(bit, seen)
    ensures bit == 1 || bit == 2 || bit == 4 || bit & FUNCTION_SETTABLE == 0
  {
  }

  lemma AllPassed(f: bv32, seen: bv32)
    requires Left(f, seen) == 0
    ensures Passed(f, seen) == f
  {
  }

  class UsbDeviceManager {
    var currentFunctions: bv32  // the bit pattern of the source's int32_t
    var connected: bool

    constructor ()
      ensures currentFunctions == 0 && !connected
    {
      currentFunctions, connected := 0, false;
    }

    method UpdateFunctions(func: bv32)
      modifies this
      ensures currentFunctions == func && connected == old(connected)
    {
      currentFunctions := func;
    }

    /** The bit loop: from bit 1 on, name each bit that is left and clear it. */
    method NameBits(f: bv32) returns (names: set<string>)
      ensures names == NamesSet(f)
    {
      hide AtBit, NamesSet, ToText, Left, Passed;
      var remainderFunc := f;
      var bit: bv32 := 1;
      ghost var seen: bv32 := 0;
      names := {};
      Start(f);
      while remainderFunc != 0
        invariant AtBit(bit, seen)
        invariant remainderFunc == Left(f, seen)
        invariant names == NamesSet(Passed(f, seen))
        decreases !seen
      {
        MoveOn(f, bit, seen);
        ClearBit(f, bit, seen);
        if remainderFunc & bit != 0 {
          SettableOrNot(bit, seen);
          NameStep(f, bit, seen);
          var name := ConvertToString(bit);
          names := names + {name};
          remainderFunc := remainderFunc & !bit;
        }
        seen := seen | bit;
        bit := bit << 1;
      }
      AllPassed(f, seen);
    }

    /** reported is usbd's answer about the current functions, if it gives one. */
    method HandleEvent(status: Status, reported: Option<bv32>) returns (event: Option<StateEvent>)
      modifies this
      ensures status.ActUpDevice? ==> connected && currentFunctions == reported.GetOr(old(currentFunctions))
      ensures status.ActDownDevice? ==> !connected && currentFunctions == old(currentFunctions)
      ensures !status.ActUpDevice? && !status.ActDownDevice? ==>
        connected == old(connected) && currentFunctions == old(currentFunctions) && event == None
      ensures status.ActUpDevice? || status.ActDownDevice? ==>
        event == Some(StateEvent(connected, NamesSet(currentFunctions)))
    {
      match status {
        case ActUpDevice =>
          connected := true;
          if reported.Some? {
            currentFunctions := reported.value;
          }
        case ActDownDevice =>
          connected := false;
        case _ =>
          return None;
      }
      var names := NameBits(currentFunctions);
      event := Some(StateEvent(connected, names));
    }
  }

  /** What the broadcast names say about a mask: one name per settable bit, "none" iff a higher bit is on. */
  lemma NamesSetExact(mask: bv32)
    ensures NamesSet(mask) <= {"acm", "ecm", "hdc", "none"}
    ensures "acm" in NamesSet(mask) <==> mask & 1 != 0
    ensures "ecm" in NamesSet(mask) <==> mask & 2 != 0
    ensures "hdc" in NamesSet(mask) <==> mask & 4 != 0
    ensures "none" in NamesSet(mask) <==> mask > 7
    ensures NamesSet(mask) == {} <==> mask == 0
  {
  }
}
