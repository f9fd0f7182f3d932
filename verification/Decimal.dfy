/** std::to_string on naturals and std::atoi, with the platform's int width. */
module Decimal {
  predicate IsDigit(c: char) {
    '0' <= c <= '9'
  }

  function ToString(n: nat): string {
    if n < 10 then ['0' + (n as char)] else ToString(n / 10) + ['0' + ((n % 10) as char)]
  }

  /** Value of the leading digits of `s`, after `acc`. */
  function DigitsValue(s: string, acc: nat): nat {
    if s == [] || !IsDigit(s[0]) then acc
    else DigitsValue(s[1..], acc * 10 + (s[0] - '0') as nat)
  }

  predicate IsSpace(c: char) {
    c == ' ' || '\t' <= c <= '\r'
  }

  function SkipSpace(s: string): string {
    if s != [] && IsSpace(s[0]) then SkipSpace(s[1..]) else s
  }

  /** strtol saturates at 64 bits and the result is narrowed to a 32-bit int. */
  function ToInt(v: int): int {
    var long := if v > 0x7FFF_FFFF_FFFF_FFFF then 0x7FFF_FFFF_FFFF_FFFF
                else if v < -0x8000_0000_0000_0000 then -0x8000_0000_0000_0000 else v;
    (long + 0x8000_0000) % 0x1_0000_0000 - 0x8000_0000
  }

  function Atoi(s: string): int {
    var t := SkipSpace(s);
    if t != [] && t[0] == '-' then ToInt(0 - DigitsValue(t[1..], 0))
    else if t != [] && t[0] == '+' then ToInt(DigitsValue(t[1..], 0))
    else ToInt(DigitsValue(t, 0))
  }

  lemma {:induction false} ToStringDigits(n: nat)
    ensures ToString(n) != [] && forall i | 0 <= i < |ToString(n)| :: IsDigit(ToString(n)[i])
  {
    if n >= 10 { ToStringDigits(n / 10); }
  }

  /** Decimal notation: ten times a number is written with one more digit behind it. */
  lemma OneMoreDigit(q: nat, d: nat)
    requires d < 10
    ensures ToString(d) == ["0123456789"[d]]
    ensures q > 0 ==> ToString(10 * q + d) == ToString(q) + ToString(d)
  {
  }

  lemma {:induction false} DigitsOfToString(n: nat, rest: string)
    ensures DigitsValue(ToString(n) + rest, 0) == DigitsValue(rest, n)
  {
    var d := ['0' + ((n % 10) as char)];
    assert (d + rest)[1..] == rest;
    if n >= 10 {
      DigitsOfToString(n / 10, d + rest);
      assert ToString(n) + rest == ToString(n / 10) + (d + rest);
    }
  }

  /** Narrowing takes off a multiple of 2^32, and nothing from what an int holds. */
  lemma NarrowedBy(v: int) returns (k: int)
    requires -0x8000_0000_0000_0000 <= v < 0x8000_0000_0000_0000
    ensures ToInt(v) == v - 0x1_0000_0000 * k && -0x8000_0000 <= ToInt(v) < 0x8000_0000
    ensures -0x8000_0000 <= v < 0x8000_0000 ==> ToInt(v) == v
  {
    k := (v + 0x8000_0000) / 0x1_0000_0000;
  }

  /** A sign in front of a number is read. */
  lemma SignedNumber(n: nat)
    ensures Atoi("-" + ToString(n)) == ToInt(0 - n) && Atoi("+" + ToString(n)) == ToInt(n)
  {
    DigitsOfToString(n, []);
    assert ToString(n) + [] == ToString(n);
    Signed('-', ToString(n));
    Signed('+', ToString(n));
  }

  lemma Signed(sign: char, digits: string)
    requires !IsSpace(sign)
    ensures ([sign] + digits)[1..] == digits && SkipSpace([sign] + digits) == [sign] + digits
  {
  }

  /** Printing and parsing a length that fits an int is the identity. */
  lemma AtoiOfToString(n: nat)
    requires n < 0x8000_0000
    ensures Atoi(ToString(n)) == n
  {
    ToStringDigits(n);
    DigitsOfToString(n, []);
    assert ToString(n) + [] == ToString(n);
  }
}
