/** UTF-8 as section 3 of RFC 3629 defines it: the encoding of code points. */
module CodePoints {
  import opened Requests
  import opened Utf8

  /** The code points that UTF-8 encodes: up to U+10FFFF, without surrogates. */
  predicate IsScalar(cp: nat) {
    cp <= 0x10FFFF && !(0xD800 <= cp <= 0xDFFF)
  }

  /** The table of section 3, six bits to a continuation byte. */
  function Encode(cp: nat): seq<Byte>
    requires IsScalar(cp)
  {
    if cp < 0x80 then [cp]
    else if cp < 0x800 then [0xC0 + cp / 0x40, 0x80 + cp % 0x40]
    else if cp < 0x10000 then [0xE0 + cp / 0x1000, 0x80 + cp / 0x40 % 0x40, 0x80 + cp % 0x40]
    else [0xF0 + cp / 0x40000, 0x80 + cp / 0x1000 % 0x40, 0x80 + cp / 0x40 % 0x40, 0x80 + cp % 0x40]
  }

  function EncodeAll(cps: seq<nat>): seq<Byte>
    requires forall i | 0 <= i < |cps| :: IsScalar(cps[i])
  {
    if cps == [] then [] else Encode(cps[0]) + EncodeAll(cps[1..])
  }

  lemma EncodedIsChar(cp: nat)
    requires IsScalar(cp)
    ensures IsChar(Encode(cp))
  {
    if 0x800 <= cp < 0x10000 { ThreeBytes(cp, cp / 0x40); }
    if cp >= 0x10000 { FourBytes(cp, cp / 0x40); }
  }

  lemma ThreeBytes(cp: nat, high: nat)
    requires IsScalar(cp) && 0x800 <= cp < 0x10000 && high == cp / 0x40
    ensures ThreeStart(0xE0 + cp / 0x1000, 0x80 + cp / 0x40 % 0x40)
  {
    assert cp / 0x1000 == high / 0x40;
    assert 0x20 <= high < 0x400 && !(0x360 <= high <= 0x37F);
  }

  lemma FourBytes(cp: nat, high: nat)
    requires IsScalar(cp) && cp >= 0x10000 && high == cp / 0x40
    ensures FourStart(0xF0 + cp / 0x40000, 0x80 + cp / 0x1000 % 0x40)
  {
    var top := cp / 0x1000;
    assert cp / 0x40000 == top / 0x40;
    assert 0x10 <= top <= 0x10F;
  }

  lemma CharIsEncoded(c: seq<Byte>) returns (cp: nat)
    requires IsChar(c)
    ensures IsScalar(cp) && Encode(cp) == c
  {
    if |c| == 1 {
      cp := c[0];
    } else if |c| == 2 {
      cp := TwoDigits(c[0] as int - 0xC0, c[1] as int - 0x80);
    } else if |c| == 3 {
      cp := ThreeDigits(c[0] as int - 0xE0, c[1] as int - 0x80, c[2] as int - 0x80);
    } else {
      var top := TwoDigits(c[0] as int - 0xF0, c[1] as int - 0x80);
      cp := ThreeDigits(top, c[2] as int - 0x80, c[3] as int - 0x80);
      assert cp / 0x40000 == top / 0x40;
    }
  }

  lemma TwoDigits(a: nat, b: nat) returns (n: nat)
    requires b < 0x40
    ensures n == a * 0x40 + b && n / 0x40 == a && n % 0x40 == b
  {
    n := a * 0x40 + b;
  }

  lemma ThreeDigits(a: nat, b: nat, c: nat) returns (n: nat)
    requires b < 0x40 && c < 0x40
    ensures n == a * 0x1000 + b * 0x40 + c && n / 0x1000 == a && n / 0x40 % 0x40 == b && n % 0x40 == c
  {
    var high := TwoDigits(a, b);
    n := TwoDigits(high, c);
    assert n / 0x1000 == n / 0x40 / 0x40;
  }

  lemma {:induction false} EncodedIsValid(cps: seq<nat>)
    requires forall i | 0 <= i < |cps| :: IsScalar(cps[i])
    ensures Valid(EncodeAll(cps))
  {
    if cps != [] {
      EncodedIsValid(cps[1..]);
      EncodedIsChar(cps[0]);
      CharLenIs(Encode(cps[0]), EncodeAll(cps[1..]));
    }
  }

  lemma {:induction false} ValidIsEncoded(s: seq<Byte>) returns (cps: seq<nat>)
    requires Valid(s)
    ensures (forall i | 0 <= i < |cps| :: IsScalar(cps[i])) && EncodeAll(cps) == s
    decreases |s|
  {
    if s == [] {
      cps := [];
    } else {
      var n := CharLen(s);
      HeadIsChar(s);
      var first := CharIsEncoded(s[..n]);
      var rest := ValidIsEncoded(s[n..]);
      cps := [first] + rest;
      assert cps[1..] == rest && s[..n] + s[n..] == s;
    }
  }

  /** The test accepts exactly the encodings of sequences of code points. */
  lemma ValidMeansCodePoints(s: seq<Byte>)
    ensures Valid(s) <==>
              exists cps: seq<nat> :: (forall i | 0 <= i < |cps| :: IsScalar(cps[i])) && EncodeAll(cps) == s
  {
    if Valid(s) {
      var cps := ValidIsEncoded(s);
    }
    if exists cps: seq<nat> :: (forall i | 0 <= i < |cps| :: IsScalar(cps[i])) && EncodeAll(cps) == s {
      var cps: seq<nat> :| (forall i | 0 <= i < |cps| :: IsScalar(cps[i])) && EncodeAll(cps) == s;
      EncodedIsValid(cps);
    }
  }
}
