/** Decimal printing and the "bus-address" names made with it. */
module Text {

  const DIGITS := "0123456789"

  /** std::to_string on a natural number. */
  function Digits(n: nat): (r: string)
    ensures |r| > 0 && forall k :: 0 <= k < |r| ==> '0' <= r[k] <= '9'
  {
    if n < 10 then [DIGITS[n]] else Digits(n / 10) + [DIGITS[n % 10]]
  }

  function DigitValue(c: char): nat {
    if '0' <= c <= '9' then c as int - '0' as int else 0
  }

  function Value(s: string): nat {
    if s == [] then 0 else 10 * Value(s[..|s| - 1]) + DigitValue(s[|s| - 1])
  }

  /** Reading a printed number back gives the number. */
  lemma {:induction false} DigitsReadBack(n: nat)
    ensures Value(Digits(n)) == n
  {
    hide Value, DigitValue;
    if n < 10 {
      ValueAppend("", n);
      assert "" + [DIGITS[n]] == [DIGITS[n]];
    } else {
      var more, last := n / 10, n % 10;
      DigitsReadBack(more);
      ValueAppend(Digits(more), last);
    }
  }

  lemma ValueAppend(s: string, k: nat)
    requires k < 10
    ensures Value(s + [DIGITS[k]]) == 10 * Value(s) + k
    ensures Value("") == 0
  {
    assert (s + [DIGITS[k]])[..|s|] == s;
  }

  function DeviceName(bus: nat, addr: nat): string {
    Digits(bus) + "-" + Digits(addr)
  }

  /** Only 0 is printed with a leading 0, so a number has one printed form. */
  lemma {:induction false} NoLeadingZero(n: nat)
    ensures Digits(n)[0] == '0' <==> n == 0
    ensures n == 0 ==> Digits(n) == "0"
  {
    if n >= 10 {
      NoLeadingZero(n / 10);
      assert Digits(n)[0] == Digits(n / 10)[0];
    }
  }

  /** The number before the dash of a name is the bus, the one behind it the address. */
  lemma NameReadsBack(bus: nat, addr: nat) returns (dash: nat)
    ensures var name := DeviceName(bus, addr);
      && 0 < dash < |name| - 1 && name[dash] == '-'
      && (forall k :: 0 <= k < |name| && k != dash ==> '0' <= name[k] <= '9')
      && Value(name[..dash]) == bus && Value(name[dash + 1..]) == addr
      && (name[0] == '0' <==> bus == 0) && (name[dash + 1] == '0' <==> addr == 0)
  {
    hide Digits, Value;
    var b, a, name := Digits(bus), Digits(addr), DeviceName(bus, addr);
    dash := |b|;
    assert name[..dash] == b && name[dash + 1..] == a;
    assert forall k :: 0 <= k < dash ==> name[k] == b[k];
    assert forall k :: dash < k < |name| ==> name[k] == a[k - (dash + 1)];
    DigitsReadBack(bus);
    DigitsReadBack(addr);
    NoLeadingZero(bus);
    NoLeadingZero(addr);
  }

  /** No two devices share a name, over all naturals. */
  lemma DeviceNameInjective(bus: nat, addr: nat, bus': nat, addr': nat)
    requires DeviceName(bus, addr) == DeviceName(bus', addr')
    ensures bus == bus' && addr == addr'
  {
    var b, a, b', a' := Digits(bus), Digits(addr), Digits(bus'), Digits(addr');
    var n, n' := DeviceName(bus, addr), DeviceName(bus', addr');
    assert n[|b|] == '-' && n'[|b'|] == '-';
    assert forall k :: 0 <= k < |b| ==> n[k] == b[k] && n[k] != '-';
    assert forall k :: 0 <= k < |b'| ==> n'[k] == b'[k] && n'[k] != '-';
    assert |b| == |b'|;
    assert n[..|b|] == b && n'[..|b|] == b';
    assert n[|b| + 1..] == a && n'[|b| + 1..] == a';
    DigitsReadBack(bus);
    DigitsReadBack(bus');
    DigitsReadBack(addr);
    DigitsReadBack(addr');
  }
}
