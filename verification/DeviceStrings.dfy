/** Reading string descriptors, and naming a device, its configurations and its interfaces. */
module DeviceStrings {
  import opened Machine
  import opened DeviceTree
  import opened Text

  const TYPE_STRING: byte := 3
  const VALUE_START := 2
  const NO_STRING := " "

  /** What usbd answers for the string indices of one device; an index it fails on is missing. */
  type StringTable = map<byte, seq<byte>>

  function AsChar(b: byte): char {
    b as char
  }

  /** Every other byte behind the two header bytes. */
  function DecodeString(v: seq<byte>): (r: string)
    requires |v| >= VALUE_START
    ensures |r| == (|v| - VALUE_START) / 2
    ensures forall k :: 0 <= k < |r| ==> r[k] == AsChar(v[2 * k + VALUE_START])
  {
    seq((|v| - VALUE_START) / 2, k requires 0 <= k < (|v| - VALUE_START) / 2 => AsChar(v[2 * k + VALUE_START]))
  }

  function StringAt(idx: byte, table: StringTable): string {
    if idx == 0 || idx !in table then NO_STRING
    else if |table[idx]| < VALUE_START || table[idx][1] != TYPE_STRING then NO_STRING
    else DecodeString(table[idx])
  }

  /** Two neighbouring 16-bit cells read as one little-endian 32-bit wchar_t. */
  function WideChar(lo: uint16, hi: uint16): uint32 {
    lo + 0x1_0000 * hi
  }

  function Narrow(w: uint32): char {
    AsChar(w % 0x100)
  }

  lemma NarrowWide(lo: byte, hi: byte)
    ensures Narrow(WideChar(lo, hi)) == AsChar(lo)
  {
  }

  /**
   The source spreads the bytes over 16-bit cells, reads the cells pairwise as 32-bit characters and
   narrows each; only cells that were filled are read.
   */
  method GetDevStringValFromIdx(idx: byte, table: StringTable) returns (text: string)
    ensures text == StringAt(idx, table)
  {
    hide AsChar, WideChar, Narrow;
    text := NO_STRING;
    if idx == 0 {
      return;
    }
    if idx !in table {
      return;
    }
    var descriptor := table[idx];
    var length := |descriptor|;
    if length < VALUE_START || descriptor[1] != TYPE_STRING {
      return;
    }
    var cells := new uint16[length + 1](_ => 0);
    for i := 0 to length - VALUE_START
      invariant forall k :: 0 <= k < i ==> cells[k] == descriptor[k + VALUE_START]
    {
      cells[i] := descriptor[i + VALUE_START];
    }
    var wide: seq<uint32> := [];
    for k := 0 to (length - VALUE_START) / 2
      invariant |wide| == k
      invariant forall m :: 0 <= m < k ==>
        wide[m] == WideChar(descriptor[2 * m + VALUE_START], descriptor[2 * m + 1 + VALUE_START])
    {
      assert 2 * k + 1 < length - VALUE_START;
      wide := wide + [WideChar(cells[2 * k], cells[2 * k + 1])];
    }
    var narrow: string := [];
    for k := 0 to |wide|
      invariant |narrow| == k
      invariant forall m :: 0 <= m < k ==> narrow[m] == AsChar(descriptor[2 * m + VALUE_START])
    {
      NarrowWide(descriptor[2 * k + VALUE_START], descriptor[2 * k + 1 + VALUE_START]);
      narrow := narrow + [Narrow(wide[k])];
    }
    text := narrow;
  }

  // ---------------------------------------------------------------- UTF-16LE

  /** The bytes of USB 2.0 section 9.6.7 for a text given as UTF-16 code units. */
  function Utf16Le(units: seq<uint16>): seq<byte> {
    if units == [] then [] else [LowByte(units[0]), HighByte(units[0])] + Utf16Le(units[1..])
  }

  lemma {:induction false} Utf16LeAt(units: seq<uint16>, k: nat)
    requires k < |units|
    ensures |Utf16Le(units)| == 2 * |units|
    ensures Utf16Le(units)[2 * k] == LowByte(units[k])
  {
    if |units| > 1 {
      Utf16LeAt(units[1..], if k == 0 then 0 else k - 1);
    }
  }

  /** Decoding a UTF-16LE string, even with a stray last byte, yields the low byte of every code unit. */
  lemma DecodeYieldsLowBytes(units: seq<uint16>, bLength: byte, odd: seq<byte>)
    requires |odd| <= 1
    ensures var r := DecodeString([bLength, TYPE_STRING] + Utf16Le(units) + odd);
      |r| == |units| && forall k :: 0 <= k < |r| ==> r[k] == AsChar(LowByte(units[k]))
  {
    hide AsChar;
    if units != [] {
      Utf16LeAt(units, 0);
    }
    hide LowByte;
    var v := [bLength, TYPE_STRING] + Utf16Le(units) + odd;
    forall k | 0 <= k < |units| ensures v[2 * k + VALUE_START] == LowByte(units[k]) {
      Utf16LeAt(units, k);
    }
  }

  lemma LatinUnit(u: uint16)
    ensures AsChar(LowByte(u)) as int == u <==> u < 0x100
  {
  }

  /** Decoding returns the text itself exactly for Latin-1 texts. */
  lemma DecodeExactOnLatin1(units: seq<uint16>, bLength: byte)
    ensures var r := DecodeString([bLength, TYPE_STRING] + Utf16Le(units));
      (|r| == |units| && forall k :: 0 <= k < |units| ==> r[k] as int == units[k])
      <==> (forall k :: 0 <= k < |units| ==> units[k] < 0x100)
  {
    hide AsChar, LowByte, DecodeString, Utf16Le;
    var v := [bLength, TYPE_STRING] + Utf16Le(units);
    DecodeYieldsLowBytes(units, bLength, []);
    assert v + [] == v;
    var r := DecodeString(v);
    forall k | 0 <= k < |units| ensures r[k] as int == units[k] <==> units[k] < 0x100 {
      LatinUnit(units[k]);
    }
  }

  /** A string descriptor of a text, any index but 0: the name is the low byte of every code unit. */
  lemma StringReadsText(idx: byte, table: StringTable, units: seq<uint16>, bLength: byte, odd: seq<byte>)
    requires idx != 0 && idx in table && |odd| <= 1 && table[idx] == [bLength, 3] + Utf16Le(units) + odd
    ensures var r := StringAt(idx, table);
      |r| == |units| && forall k :: 0 <= k < |r| ==> r[k] as int == units[k] % 0x100
  {
    hide Utf16Le, DecodeString;
    DecodeYieldsLowBytes(units, bLength, odd);
  }

  /** One blank for no index, no answer, no header, or another type than 3; bytes behind a header otherwise. */
  lemma StringDecided(idx: byte, table: StringTable)
    ensures idx == 0 || idx !in table || |table[idx]| < 2 || table[idx][1] != 3 ==> StringAt(idx, table) == " "
    ensures idx != 0 && idx in table && |table[idx]| >= 2 && table[idx][1] == 3 ==>
      var v, r := table[idx], StringAt(idx, table);
      |r| == (|v| - 2) / 2 && forall k :: 0 <= k < |r| ==> r[k] as int == v[2 * k + 2]
  {
  }

  // ---------------------------------------------------------------- device version

  /** The two decimal numbers of a byte's nibbles. */
  function NibbleText(b: byte): string {
    Digits(b / 0x10) + Digits(b % 0x10)
  }

  function BcdText(bcd: seq<byte>): string {
    if bcd == [] then "" else BcdText(bcd[..|bcd| - 1]) + NibbleText(bcd[|bcd| - 1])
  }

  method BcdToString(bcd: seq<byte>) returns (text: string)
    ensures text == BcdText(bcd)
  {
    text := "";
    for i := 0 to |bcd|
      invariant text == BcdText(bcd[..i])
    {
      assert bcd[..i + 1][..i] == bcd[..i];
      text := text + Digits(bcd[i] / 0x10);
      text := text + Digits(bcd[i] % 0x10);
      assert text == BcdText(bcd[..i]) + NibbleText(bcd[i]);
    }
    assert bcd[..|bcd|] == bcd;
  }

  /** The release number as printed: low byte first. */
  function VersionOf(bcdDevice: uint16): string {
    BcdText([LowByte(bcdDevice), HighByte(bcdDevice)])
  }

  /** The release number in decimal, four bits at a time, the low byte in front. */
  lemma VersionNibbles(w: uint16)
    ensures VersionOf(w)
         == Digits(w / 0x10 % 0x10) + Digits(w % 0x10) + (Digits(w / 0x1000) + Digits(w / 0x100 % 0x10))
  {
    VersionUnfolds(w);
    NibblesOf(w);
    hide Digits, LowByte, HighByte;
  }

  lemma NibblesOf(w: uint16)
    ensures LowByte(w) / 0x10 == w / 0x10 % 0x10 && LowByte(w) % 0x10 == w % 0x10
    ensures HighByte(w) / 0x10 == w / 0x1000 && HighByte(w) % 0x10 == w / 0x100 % 0x10
  {
    var h, l := w / 0x100, w % 0x100;
    var a, b, c, d := h / 0x10, h % 0x10, l / 0x10, l % 0x10;
    FourNibbles(w, a, b, c, d);
  }

  lemma FourNibbles(w: int, a: int, b: int, c: int, d: int)
    requires 0 <= a < 0x10 && 0 <= b < 0x10 && 0 <= c < 0x10 && 0 <= d < 0x10
    requires w == 0x1000 * a + 0x100 * b + 0x10 * c + d
    ensures w / 0x10 == 0x100 * a + 0x10 * b + c && w % 0x10 == d
    ensures w / 0x1000 == a
    ensures (0x100 * a + 0x10 * b + c) % 0x10 == c
  {
  }

  predicate IsBcd(w: uint16) {
    LowByte(w) / 0x10 < 10 && LowByte(w) % 0x10 < 10 && HighByte(w) / 0x10 < 10 && HighByte(w) % 0x10 < 10
  }

  lemma VersionUnfolds(w: uint16)
    ensures VersionOf(w) == NibbleText(LowByte(w)) + NibbleText(HighByte(w))
  {
    var s := [LowByte(w), HighByte(w)];
    assert s[..1] == [LowByte(w)] && s[..1][..0] == [];
    assert BcdText(s[..1]) == "" + NibbleText(LowByte(w)) == NibbleText(LowByte(w));
  }

  lemma DigitOf(n: nat)
    requires n < 0x10
    ensures n < 10 ==> Digits(n) == [DIGITS[n]] && DigitValue(DIGITS[n]) == n
    ensures n >= 10 ==> |Digits(n)| == 2
  {
  }

  /** The printed release number has four characters exactly for binary-coded decimals... */
  lemma VersionLength(w: uint16)
    ensures |VersionOf(w)| == 4 <==> IsBcd(w)
  {
    VersionUnfolds(w);
    DigitOf(LowByte(w) / 0x10);
    DigitOf(LowByte(w) % 0x10);
    DigitOf(HighByte(w) / 0x10);
    DigitOf(HighByte(w) % 0x10);
  }

  lemma BcdNibbles(b: byte)
    requires b / 0x10 < 10 && b % 0x10 < 10
    ensures NibbleText(b) == [DIGITS[b / 0x10], DIGITS[b % 0x10]]
    ensures 0x10 * DigitValue(NibbleText(b)[0]) + DigitValue(NibbleText(b)[1]) == b
  {
    DigitOf(b / 0x10);
    DigitOf(b % 0x10);
  }

  /** ...and identifies them among each other. */
  lemma VersionInjectiveOnBcd(v: uint16, w: uint16)
    requires IsBcd(v) && IsBcd(w) && VersionOf(v) == VersionOf(w)
    ensures v == w
  {
    hide NibbleText, Digits, DigitValue;
    VersionUnfolds(v);
    VersionUnfolds(w);
    BcdNibbles(LowByte(v));
    BcdNibbles(HighByte(v));
    BcdNibbles(LowByte(w));
    BcdNibbles(HighByte(w));
    assert VersionOf(v)[..2] == NibbleText(LowByte(v)) && VersionOf(w)[..2] == NibbleText(LowByte(w));
    assert VersionOf(v)[2..] == NibbleText(HighByte(v)) && VersionOf(w)[2..] == NibbleText(HighByte(w));
  }

  // ---------------------------------------------------------------- naming

  function NameInterface(i: Interface, table: StringTable): Interface {
    i.(name := StringAt(i.iInterface, table))
  }

  function NameInterfaces(items: seq<Interface>, table: StringTable): (r: seq<Interface>)
    ensures |r| == |items| && forall k :: 0 <= k < |r| ==> r[k] == NameInterface(items[k], table)
  {
    seq(|items|, k requires 0 <= k < |items| => NameInterface(items[k], table))
  }

  function NameConfig(c: Config, table: StringTable): Config {
    c.(name := StringAt(c.iConfiguration, table), interfaces := NameInterfaces(c.interfaces, table))
  }

  function NameConfigs(cs: seq<Config>, table: StringTable): (r: seq<Config>)
    ensures |r| == |cs| && forall k :: 0 <= k < |r| ==> r[k] == NameConfig(cs[k], table)
  {
    seq(|cs|, k requires 0 <= k < |cs| => NameConfig(cs[k], table))
  }

  function NameDevice(d: Device, table: StringTable): Device {
    d.(version := VersionOf(d.bcdDevice),
       manufacturerName := StringAt(d.iManufacturer, table),
       productName := StringAt(d.iProduct, table),
       serial := StringAt(d.iSerialNumber, table),
       configs := NameConfigs(d.configs, table))
  }

  method FillDevStrings(dev: Device, table: StringTable) returns (code: Code, d: Device)
    ensures code == UecOk && d == NameDevice(dev, table)
  {
    d := dev;
    var version := BcdToString([LowByte(dev.bcdDevice), HighByte(dev.bcdDevice)]);
    d := d.(version := version);
    var text := GetDevStringValFromIdx(d.iManufacturer, table);
    d := d.(manufacturerName := text);
    text := GetDevStringValFromIdx(d.iProduct, table);
    d := d.(productName := text);
    text := GetDevStringValFromIdx(d.iSerialNumber, table);
    d := d.(serial := text);

    var configs := d.configs;
    for c := 0 to |configs|
      invariant |configs| == |dev.configs|
      invariant forall k :: 0 <= k < c ==> configs[k] == NameConfig(dev.configs[k], table)
      invariant forall k :: c <= k < |configs| ==> configs[k] == dev.configs[k]
    {
      text := GetDevStringValFromIdx(configs[c].iConfiguration, table);
      configs := configs[c := configs[c].(name := text)];
      var interfaces := configs[c].interfaces;
      for i := 0 to |interfaces|
        invariant |interfaces| == |dev.configs[c].interfaces|
        invariant forall k :: 0 <= k < i ==> interfaces[k] == NameInterface(dev.configs[c].interfaces[k], table)
        invariant forall k :: i <= k < |interfaces| ==> interfaces[k] == dev.configs[c].interfaces[k]
      {
        text := GetDevStringValFromIdx(interfaces[i].iInterface, table);
        interfaces := interfaces[i := interfaces[i].(name := text)];
      }
      assert interfaces == NameInterfaces(dev.configs[c].interfaces, table);
      configs := configs[c := configs[c].(interfaces := interfaces)];
    }
    assert configs == NameConfigs(dev.configs, table);
    d := d.(configs := configs);
    code := UecOk;
  }

  // Everything but the strings that naming may write.

  function Nameless(d: Device): Device {
    d.(version := "", manufacturerName := "", productName := "", serial := "",
       configs := seq(|d.configs|, k requires 0 <= k < |d.configs| => NamelessConfig(d.configs[k])))
  }

  function NamelessConfig(c: Config): Config {
    c.(name := "",
       interfaces := seq(|c.interfaces|, k requires 0 <= k < |c.interfaces| => c.interfaces[k].(name := "")))
  }

  /** Naming writes names only: shape, numbers and the device's own name stay; and doing it again changes nothing. */
  lemma NamingIsFrame(d: Device, table: StringTable)
    ensures Nameless(NameDevice(d, table)) == Nameless(d)
    ensures NameDevice(NameDevice(d, table), table) == NameDevice(d, table)
    ensures forall c :: 0 <= c < |d.configs| ==>
      var named := NameDevice(d, table).configs[c];
      && named.name == StringAt(d.configs[c].iConfiguration, table)
      && |named.interfaces| == |d.configs[c].interfaces|
      && forall i :: 0 <= i < |named.interfaces| ==>
           named.interfaces[i].name == StringAt(d.configs[c].interfaces[i].iInterface, table)
  {
    var named := NameDevice(d, table);
    forall c | 0 <= c < |d.configs|
      ensures NamelessConfig(named.configs[c]) == NamelessConfig(d.configs[c])
      ensures NameConfig(named.configs[c], table) == named.configs[c]
    {
      NamingConfigIsFrame(d.configs[c], table);
    }
    assert Nameless(named).configs == Nameless(d).configs;
    assert NameConfigs(named.configs, table) == named.configs;
  }

  lemma NamingConfigIsFrame(c: Config, table: StringTable)
    ensures NamelessConfig(NameConfig(c, table)) == NamelessConfig(c)
    ensures NameConfig(NameConfig(c, table), table) == NameConfig(c, table)
  {
  }
}
