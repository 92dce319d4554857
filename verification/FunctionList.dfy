/** USB function lists as text and as masks, and the state broadcast. */
module FunctionList {
  import opened Machine
  import opened Slices

  const FUNCTION_NONE: bv32 := 0
  const FUNCTION_ACM: bv32 := 1
  const FUNCTION_ECM: bv32 := 2
  const FUNCTION_HDC: bv32 := 4
  const FUNCTION_MTP: bv32 := 8
  const FUNCTION_PTP: bv32 := 16
  const FUNCTION_SETTABLE: bv32 := FUNCTION_HDC | FUNCTION_ACM | FUNCTION_ECM

  const FUNCTION_MAPPING: map<string, bv32> := map[
    "none" := FUNCTION_NONE, "acm" := FUNCTION_ACM, "ecm" := FUNCTION_ECM,
    "hdc" := FUNCTION_HDC, "mtp" := FUNCTION_MTP, "ptp" := FUNCTION_PTP]

  // ---------------------------------------------------------------- the language

  /** Names separated by commas. */
  function Join(names: seq<string>): string {
    if names == [] then ""
    else if |names| == 1 then names[0]
    else names[0] + "," + Join(names[1..])
  }

  function Listing(names: seq<string>, trailingComma: bool): string {
    if trailingComma then Join(names) + "," else Join(names)
  }

  function Lookup(name: string): Option<bv32> {
    if name in FUNCTION_MAPPING then Some(FUNCTION_MAPPING[name]) else None
  }

  predicate Known(names: seq<string>) {
    forall n :: n in names ==> Lookup(n).Some?
  }

  /** The OR of the bits of the listed names, in list order. */
  function MaskOf(names: seq<string>): bv32
    requires Known(names)
  {
    if names == [] then 0 else Lookup(names[0]).value | MaskOf(names[1..])
  }

  function Bit(set_: bool, bit: bv32): bv32 {
    if set_ then bit else 0
  }

  // ---------------------------------------------------------------- tokenising

  /** Position of the first comma at or behind pos, or the length of the text. */
  function FindComma(s: string, pos: nat): (r: nat)
    requires pos <= |s|
    ensures pos <= r <= |s|
    ensures r < |s| ==> s[r] == ','
    ensures forall k :: pos <= k < r ==> s[k] != ','
    decreases |s| - pos
  {
    if pos == |s| || s[pos] == ',' then pos else FindComma(s, pos + 1)
  }

  /** What the tokenising loop still collects from pos on. */
  function Tokens(s: string, pos: nat): seq<string>
    requires pos <= |s|
    decreases |s| - pos
  {
    if pos == |s| then []
    else
      var f := FindComma(s, pos);
      if f == |s| then [s[pos..]] else [s[pos..f]] + Tokens(s, f + 1)
  }

  /** The mask a text stands for, if any. */
  function FromText(s: string): Option<bv32> {
    if s == "" || !Known(Tokens(s, 0)) then None else Some(MaskOf(Tokens(s, 0)))
  }

  /** ConvertFromString, whose error code shares the type of the masks. */
  function Converted(s: string, invalid: bv32): bv32 {
    FromText(s).GetOr(invalid)
  }

  lemma KnownCons(names: seq<string>, acc: bv32)
    requires names != []
    ensures Known(names) <==> Lookup(names[0]).Some? && Known(names[1..])
    ensures Known(names) ==> (acc | Lookup(names[0]).value) | MaskOf(names[1..]) == acc | MaskOf(names)
  {
  }

  /** The tokenising loop of ConvertFromString. */
  method SplitAtCommas(text: string) returns (names: seq<string>)
    ensures names == Tokens(text, 0)
  {
    var len := |text|;
    names := [];
    var pos := 0;
    while pos < len
      invariant pos <= len
      invariant names + Tokens(text, pos) == Tokens(text, 0)
      decreases len - pos
    {
      var comma := FindComma(text, pos);
      if comma == len {
        names := names + [text[pos..]];
        break;
      }
      names := names + [text[pos..comma]];
      pos := comma + 1;
    }
  }

  method ConvertFromString(text: string, invalid: bv32) returns (r: bv32)
    ensures r == Converted(text, invalid)
  {
    hide Lookup, Known, MaskOf, Tokens;
    if text == "none" {
      NoneIsZero();
      return FUNCTION_NONE;
    }
    if |text| == 0 {
      return invalid;
    }
    var names := SplitAtCommas(text);
    var mask: bv32 := 0;
    assert names[0..] == names;
    KnownNil();
    for i := 0 to |names|
      invariant Known(names[i..]) <==> Known(names)
      invariant Known(names) ==> mask | MaskOf(names[i..]) == MaskOf(names)
    {
      KnownCons(names[i..], mask);
      assert names[i..][1..] == names[i + 1..];
      var it := Lookup(names[i]);
      if it.Some? {
        mask := mask | it.value;
      } else {
        return invalid;
      }
    }
    assert names[|names|..] == [];
    r := mask;
  }

  lemma KnownNil()
    ensures Known([]) && MaskOf([]) == 0
  {
  }

  lemma NoneIsZero()
    ensures FromText("none") == Some(FUNCTION_NONE)
  {
  }

  // ---------------------------------------------------------------- exactly the language

  lemma {:induction false} TokensRebuildText(s: string, pos: nat)
    requires pos < |s|
    ensures Tokens(s, pos) != []
    ensures Listing(Tokens(s, pos), s[|s| - 1] == ',') == s[pos..]
    decreases |s| - pos
  {
    var f, trailing := FindComma(s, pos), s[|s| - 1] == ',';
    var next, name := f + 1, s[pos..f];
    TokensUnfold(s, pos, f, next);
    hide *;
    if f == |s| {
      assert s[pos..] == name && name + "" == name;
      OneName(name, false);
    } else {
      CutAtComma(s, pos, f, next);
      if next == |s| {
        OneName(name, true);
      } else {
        TokensRebuildText(s, next);
        ListingCons(name, Tokens(s, next), trailing);
      }
    }
  }

  lemma TokensUnfold(s: string, pos: nat, f: nat, next: nat)
    requires pos < |s| && f == FindComma(s, pos) && next == f + 1
    ensures f == |s| ==> Tokens(s, pos) == [s[pos..]]
    ensures next < |s| ==> Tokens(s, pos) == [s[pos..f]] + Tokens(s, next)
    ensures next == |s| ==> Tokens(s, pos) == [s[pos..f]]
  {
    hide FindComma;
    if next == |s| {
      assert Tokens(s, next) == [];
    }
  }

  lemma CutAtComma(s: string, pos: nat, f: nat, next: nat)
    requires pos <= f < |s| && s[f] == ',' && next == f + 1
    ensures s[pos..] == s[pos..f] + ("," + s[next..])
    ensures next == |s| ==> s[pos..] == s[pos..f] + ","
  {
  }

  lemma ListingCons(name: string, more: seq<string>, trailingComma: bool)
    requires more != []
    ensures Listing([name] + more, trailingComma) == name + ("," + Listing(more, trailingComma))
  {
  }

  predicate Plain(n: string) {
    n != "" && forall k :: 0 <= k < |n| ==> n[k] != ','
  }

  lemma FindAt(s: string, pos: nat, f: nat)
    requires pos <= f <= |s| && (forall k :: pos <= k < f ==> s[k] != ',') && (f < |s| ==> s[f] == ',')
    ensures FindComma(s, pos) == f
  {
  }

  /** The first name of a listing ends at the first comma, and the rest of the listing follows it. */
  lemma NameAhead(s: string, pos: nat, n: string, more: seq<string>, trailingComma: bool, f: nat, next: nat)
    requires Plain(n) && pos <= |s| && s[pos..] == Listing([n] + more, trailingComma)
    requires f == pos + |n| && next == f + 1
    ensures f <= |s| && FindComma(s, pos) == f && s[pos..f] == n
    ensures more == [] ==> |s| == if trailingComma then next else f
    ensures more != [] ==> next <= |s| && s[next..] == Listing(more, trailingComma)
  {
    hide Listing, FindComma;
    if more == [] {
      assert [n] + more == [n];
      OneName(n, trailingComma);
      Advance(s, pos, n, if trailingComma then "," else "");
    } else {
      ListingCons(n, more, trailingComma);
      Advance(s, pos, n, "," + Listing(more, trailingComma));
      Advance(s, f, ",", Listing(more, trailingComma));
    }
    FirstName(s, pos, n, f);
    assert s[pos..f] == s[pos..][..|n|] == n;
  }

  lemma {:induction false} TokensOfListing(s: string, pos: nat, names: seq<string>, trailingComma: bool)
    requires names != [] && (forall n :: n in names ==> Plain(n))
    requires pos <= |s| && s[pos..] == Listing(names, trailingComma)
    ensures Tokens(s, pos) == names
    decreases |names|
  {
    hide Listing, Tokens, FindComma, Plain;
    var n, more := names[0], names[1..];
    var f := pos + |n|;
    var next := f + 1;
    assert n in names && names == [n] + more;
    NameAhead(s, pos, n, more, trailingComma, f, next);
    ListingNotEmpty(names, trailingComma);
    TokensUnfold(s, pos, f, next);
    if more == [] {
      assert f == |s| ==> s[pos..] == s[pos..f];
    } else {
      ListingNotEmpty(more, trailingComma);
      TokensOfListing(s, next, more, trailingComma);
    }
  }

  lemma ListingNotEmpty(names: seq<string>, trailingComma: bool)
    requires names != [] && forall n :: n in names ==> Plain(n)
    ensures Listing(names, trailingComma) != ""
  {
    assert names[0] in names;
  }

  lemma OneName(n: string, trailingComma: bool)
    ensures Listing([n], trailingComma) == n + (if trailingComma then "," else "")
  {
  }

  lemma FirstName(s: string, pos: nat, n: string, f: nat)
    requires f == pos + |n| <= |s| && Plain(n) && (forall k :: 0 <= k < |n| ==> s[k + pos] == n[k])
    requires f < |s| ==> s[f] == ','
    ensures FindComma(s, pos) == f
  {
    assert forall k :: pos <= k < f ==> s[k] == n[k - pos];
    FindAt(s, pos, f);
  }

  lemma KnownArePlain(names: seq<string>)
    requires Known(names)
    ensures forall n :: n in names ==> Plain(n)
  {
  }

  /**
   Main result on reading: exactly the comma-separated, non-empty lists of known names are accepted,
   with at most one comma at the end, and every one of them yields the OR of its names.
   */
  lemma LanguageExact(s: string)
    ensures FromText(s).Some? <==>
      exists names, trailingComma :: names != [] && Known(names) && s == Listing(names, trailingComma)
    ensures forall names, trailingComma | names != [] && Known(names) && s == Listing(names, trailingComma) ::
      FromText(s) == Some(MaskOf(names))
  {
    hide Lookup, MaskOf;
    if FromText(s).Some? {
      TokensRebuildText(s, 0);
      assert s[0..] == s;
      assert s == Listing(Tokens(s, 0), s[|s| - 1] == ',');
    }
    forall names, trailingComma | names != [] && Known(names) && s == Listing(names, trailingComma)
      ensures FromText(s) == Some(MaskOf(names))
    {
      KnownArePlain(names);
      assert s[0..] == s;
      TokensOfListing(s, 0, names, trailingComma);
      assert names[0] in names && Plain(names[0]);
    }
  }

  /** The mask says which names occur, and nothing about order or repetition. */
  lemma {:induction false} MaskIsMembership(names: seq<string>)
    requires Known(names)
    ensures MaskOf(names) == Members("acm" in names, "ecm" in names, "hdc" in names, "mtp" in names, "ptp" in names)
  {
    hide Lookup, Members, Known;
    if names == [] {
      NoMembers();
    } else {
      var n, more := names[0], names[1..];
      KnownCons(names, 0);
      MaskIsMembership(more);
      assert forall m :: m in names <==> m == n || m in more;
      OneMore(n, more);
    }
  }

  function Members(acm: bool, ecm: bool, hdc: bool, mtp: bool, ptp: bool): bv32 {
    Bit(acm, 1) | Bit(ecm, 2) | Bit(hdc, 4) | Bit(mtp, 8) | Bit(ptp, 16)
  }

  lemma NoMembers()
    ensures Members(false, false, false, false, false) == 0
  {
  }

  lemma OneMore(n: string, more: seq<string>)
    requires Lookup(n).Some?
    ensures Lookup(n).value
        | Members("acm" in more, "ecm" in more, "hdc" in more, "mtp" in more, "ptp" in more)
      == Members(n == "acm" || "acm" in more, n == "ecm" || "ecm" in more, n == "hdc" || "hdc" in more,
                 n == "mtp" || "mtp" in more, n == "ptp" || "ptp" in more)
  {
    assert n == "none" || n == "acm" || n == "ecm" || n == "hdc" || n == "mtp" || n == "ptp";
  }

  lemma OrderAndRepetitionFree(a: seq<string>, b: seq<string>)
    requires Known(a) && Known(b) && forall n :: n in a <==> n in b
    ensures MaskOf(a) == MaskOf(b)
  {
    MaskIsMembership(a);
    MaskIsMembership(b);
  }

  /** The six names, and no others. */
  lemma KnownNames(names: seq<string>)
    ensures Known(names) <==> forall n :: n in names ==>
      n == "none" || n == "acm" || n == "ecm" || n == "hdc" || n == "mtp" || n == "ptp"
  {
  }

  ghost predicate IsListing(s: string) {
    exists names, trailingComma :: names != [] && Known(names) && s == Listing(names, trailingComma)
  }

  /** A listing of known names gives their mask, every other text the error code. */
  lemma ConvertedExact(s: string, invalid: bv32)
    ensures !IsListing(s) ==> Converted(s, invalid) == invalid
    ensures forall names, trailingComma | names != [] && Known(names) && s == Listing(names, trailingComma) ::
      Converted(s, invalid) == MaskOf(names)
  {
    hide FromText, Known, Listing, MaskOf;
    LanguageExact(s);
  }

  const FUNCTION_ALL: bv32 := 31

  /** Names for a set of known bits, "none" always being one of them. */
  function NamesFor(acm: bool, ecm: bool, hdc: bool, mtp: bool, ptp: bool): (r: seq<string>)
    ensures forall n :: n in r <==>
      || n == "none" || (acm && n == "acm") || (ecm && n == "ecm") || (hdc && n == "hdc")
      || (mtp && n == "mtp") || (ptp && n == "ptp")
  {
    AddIf(acm, "acm", AddIf(ecm, "ecm", AddIf(hdc, "hdc", AddIf(mtp, "mtp", AddIf(ptp, "ptp", ["none"])))))
  }

  function AddIf(present: bool, name: string, names: seq<string>): (r: seq<string>)
    ensures forall n :: n in r <==> n in names || (present && n == name)
  {
    if present then [name] + names else names
  }

  lemma NamesForMembership(acm: bool, ecm: bool, hdc: bool, mtp: bool, ptp: bool)
    ensures var names := NamesFor(acm, ecm, hdc, mtp, ptp);
      && (acm <==> "acm" in names) && (ecm <==> "ecm" in names) && (hdc <==> "hdc" in names)
      && (mtp <==> "mtp" in names) && (ptp <==> "ptp" in names)
  {
    hide NamesFor;
  }

  lemma BitsOfMask(mask: bv32)
    requires mask <= FUNCTION_ALL
    ensures Members(mask & 1 != 0, mask & 2 != 0, mask & 4 != 0, mask & 8 != 0, mask & 16 != 0) == mask
  {
  }

  lemma MembersBounded(acm: bool, ecm: bool, hdc: bool, mtp: bool, ptp: bool)
    ensures Members(acm, ecm, hdc, mtp, ptp) <= FUNCTION_ALL
  {
  }

  lemma MaskBounded(s: string)
    requires FromText(s).Some?
    ensures FromText(s).value <= FUNCTION_ALL
  {
    hide Members;
    var names := Tokens(s, 0);
    MaskIsMembership(names);
    MembersBounded("acm" in names, "ecm" in names, "hdc" in names, "mtp" in names, "ptp" in names);
  }

  lemma MaskHasText(mask: bv32) returns (s: string)
    requires mask <= FUNCTION_ALL
    ensures FromText(s) == Some(mask)
  {
    hide Members, FromText, MaskOf;
    var acm, ecm, hdc, mtp, ptp := mask & 1 != 0, mask & 2 != 0, mask & 4 != 0, mask & 8 != 0, mask & 16 != 0;
    var names := NamesFor(acm, ecm, hdc, mtp, ptp);
    s := Listing(names, false);
    LanguageExact(s);
    MaskIsMembership(names);
    NamesForMembership(acm, ecm, hdc, mtp, ptp);
    BitsOfMask(mask);
  }

  /** Whatever error code is used, it says that the text was refused iff it lies above all five known bits. */
  lemma ErrorToldApart(invalid: bv32)
    ensures (forall s :: Converted(s, invalid) == invalid ==> FromText(s) == None) <==> invalid > FUNCTION_ALL
  {
    hide FromText;
    if invalid <= FUNCTION_ALL {
      var s := MaskHasText(invalid);
      assert Converted(s, invalid) == invalid;
    } else {
      forall s | Converted(s, invalid) == invalid ensures FromText(s) == None {
        if FromText(s).Some? {
          MaskBounded(s);
        }
      }
    }
  }

  // ---------------------------------------------------------------- printing

  function NamesOf(mask: bv32): seq<string> {
    (if mask & FUNCTION_HDC != 0 then ["hdc"] else [])
    + (if mask & FUNCTION_ACM != 0 then ["acm"] else [])
    + (if mask & FUNCTION_ECM != 0 then ["ecm"] else [])
  }

  function ToText(mask: bv32): string {
    if mask == FUNCTION_NONE || mask > FUNCTION_SETTABLE then "none" else Join(NamesOf(mask))
  }

  method ConvertToString(mask: bv32) returns (text: string)
    ensures text == ToText(mask)
  {
    if mask <= FUNCTION_NONE || mask > FUNCTION_SETTABLE {
      return "none";
    }
    var flag := false;
    text := "";
    if mask & FUNCTION_HDC != 0 {
      text := "hdc";
      flag := true;
    }
    if mask & FUNCTION_ACM != 0 {
      if flag {
        text := text + ",";
      }
      text := text + "acm";
      flag := true;
    }
    if mask & FUNCTION_ECM != 0 {
      if flag {
        text := text + ",";
      }
      text := text + "ecm";
      flag := true;
    }
    JoinShort(NamesOf(mask));
  }

  lemma JoinShort(names: seq<string>)
    requires |names| <= 3
    ensures |names| == 2 ==> Join(names) == names[0] + "," + names[1]
    ensures |names| == 3 ==> Join(names) == names[0] + "," + names[1] + "," + names[2]
  {
  }

  lemma PrintedNames()
    ensures NamesOf(1) == ["acm"] && NamesOf(2) == ["ecm"] && NamesOf(3) == ["acm", "ecm"] && NamesOf(4) == ["hdc"]
    ensures NamesOf(5) == ["hdc", "acm"] && NamesOf(6) == ["hdc", "ecm"] && NamesOf(7) == ["hdc", "acm", "ecm"]
  {
  }

  lemma JoinedNames(a: string, b: string, c: string)
    ensures Join([a]) == a && Join([a, b]) == a + "," + b && Join([a, b, c]) == a + "," + b + "," + c
  {
    JoinShort([a, b]);
    JoinShort([a, b, c]);
  }

  lemma PrintedPairs()
    ensures ToText(3) == "acm,ecm" && ToText(5) == "hdc,acm" && ToText(6) == "hdc,ecm"
  {
    PrintedNames();
    JoinedNames("acm", "ecm", "");
    JoinedNames("hdc", "acm", "");
    JoinedNames("hdc", "ecm", "");
    hide NamesOf, Join;
  }

  /** The text of every mask: hdc in front of acm in front of ecm, each once, and "none" for 0 and above 7. */
  lemma PrintedTexts(mask: bv32)
    ensures ToText(1) == "acm" && ToText(2) == "ecm" && ToText(3) == "acm,ecm" && ToText(4) == "hdc"
    ensures ToText(5) == "hdc,acm" && ToText(6) == "hdc,ecm" && ToText(7) == "hdc,acm,ecm"
    ensures mask == 0 || mask > 7 ==> ToText(mask) == "none"
  {
    PrintedNames();
    PrintedPairs();
    JoinedNames("acm", "", "");
    JoinedNames("ecm", "", "");
    JoinedNames("hdc", "acm", "ecm");
    hide NamesOf, Join;
  }

  /** Printing and reading back returns the mask iff it has settable bits only, and no function otherwise. */
  lemma PrintedMaskReadsBack(mask: bv32)
    ensures FromText(ToText(mask)) == Some(if mask <= FUNCTION_SETTABLE then mask else FUNCTION_NONE)
  {
    if mask == FUNCTION_NONE || mask > FUNCTION_SETTABLE {
      NoneIsZero();
    } else {
      var names := NamesOf(mask);
      assert Lookup("hdc").Some? && Lookup("acm").Some? && Lookup("ecm").Some?;
      assert Known(names);
      LanguageExact(Listing(names, false));
      MaskIsMembership(names);
      NamesOfMembership(mask);
    }
  }

  lemma NamesOfMembership(mask: bv32)
    requires mask != 0 && mask <= FUNCTION_SETTABLE
    ensures var names := NamesOf(mask);
      && names != []
      && Members("acm" in names, "ecm" in names, "hdc" in names, "mtp" in names, "ptp" in names) == mask
  {
  }

  /** AreSettableFunctions accepts exactly the masks that survive printing. */
  predicate AreSettableFunctions(funcs: bv32) {
    funcs == FUNCTION_NONE || (!FUNCTION_SETTABLE & funcs) == 0
  }

  lemma SettableIffReadsBack(funcs: bv32)
    ensures AreSettableFunctions(funcs) <==> funcs <= 7
    ensures AreSettableFunctions(funcs) <==> FromText(ToText(funcs)) == Some(funcs)
  {
    PrintedMaskReadsBack(funcs);
    hide FromText, ToText;
  }
}
