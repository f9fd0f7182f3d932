/** The base64 pair of section 4 of RFC 4648: the encoder used for images and the
    decoder used for written files. */
module Base64 {
  import opened Requests
  import opened Utf8

  const PAD: Byte := 0x3D
  const LF: Byte := 0x0A
  const CR: Byte := 0x0D

  /** Table 1 of RFC 4648. */
  function Letter(v: nat): Byte
    requires v < 64
  {
    if v < 26 then 0x41 + v
    else if v < 52 then 0x61 + v - 26
    else if v < 62 then 0x30 + v - 52
    else if v == 62 then 0x2B else 0x2F
  }

  /** The decoder's table: value of a letter, or -1. */
  function Value(c: Byte): int {
    if c == 0x2B then 62 else if c == 0x2F then 63
    else if 0x30 <= c <= 0x39 then c - 0x30 + 52
    else if 0x41 <= c <= 0x5A then c - 0x41
    else if 0x61 <= c <= 0x7A then c - 0x61 + 26
    else -1
  }

  lemma ValueOfLetter(v: nat)
    requires v < 64
    ensures Value(Letter(v)) == v && !Skipped(Letter(v))
  {
  }

  /** The letters are the standard's, in its order: A to Z, a to z, 0 to 9, + and /. */
  lemma LettersInOrder(v: nat)
    requires v < 64
    ensures Letter(0) == 'A' as int && Letter(25) == 'Z' as int && Letter(26) == 'a' as int
    ensures Letter(51) == 'z' as int && Letter(52) == '0' as int && Letter(61) == '9' as int
    ensures Letter(62) == '+' as int && Letter(63) == '/' as int
    ensures v < 61 && v != 25 && v != 51 ==> Letter(v + 1) == Letter(v) + 1
  {
  }

  predicate Skipped(c: Byte) {
    c == PAD || c == LF || c == CR
  }

  // ---- Encoding ----------------------------------------------------------------------

  /** The letters of a group of one to three bytes. */
  function Group(s: seq<Byte>): (g: seq<Byte>)
    requires 1 <= |s| <= 3
    ensures |g| == 4
  {
    var a, b, c := s[0], if |s| > 1 then s[1] else 0, if |s| > 2 then s[2] else 0;
    [Letter(a / 4), Letter(a % 4 * 16 + b / 16),
     if |s| > 1 then Letter(b % 16 * 4 + c / 64) else PAD,
     if |s| > 2 then Letter(c % 64) else PAD]
  }

  function Encode(s: seq<Byte>): seq<Byte> {
    if s == [] then []
    else if |s| <= 3 then Group(s)
    else Group(s[..3]) + Encode(s[3..])
  }

  lemma Quotient(n: nat, d: nat, q: nat, r: nat)
    requires r < d && n == q * d + r
    ensures n / d == q && n % d == r
  {
    var k, m := n / d, n % d;
    assert n == k * d + m;
    if k < q {
      Times(q - k, d);
    } else if k > q {
      Times(k - q, d);
    }
  }

  lemma Times(k: nat, d: nat)
    requires k >= 1
    ensures k * d >= d
  {
  }

  lemma SextetsOf(a: Byte, b: Byte, c: Byte, n: nat)
    requires n == a * 0x10000 + b * 0x100 + c
    ensures n / 0x40000 % 64 == a / 4
    ensures n / 0x1000 % 64 == a % 4 * 16 + b / 16
    ensures n / 0x40 % 64 == b % 16 * 4 + c / 64
    ensures n % 64 == c % 64
  {
    Quotient(n, 0x40000, a / 4, a % 4 * 0x10000 + b * 0x100 + c);
    Quotient(n, 0x1000, a * 16 + b / 16, b % 16 * 0x100 + c);
    Quotient(n / 0x1000, 64, a / 4, a % 4 * 16 + b / 16);
    Quotient(n, 0x40, a * 1024 + b * 4 + c / 64, c % 64);
    Quotient(n / 0x40, 64, a * 16 + b / 16, b % 16 * 4 + c / 64);
  }

  /** Section 4 of RFC 4648: a group of three bytes and its four letters are the same
      number, written with eight and with six bits to a digit, highest first. */
  lemma GroupIsOneNumber(a: Byte, b: Byte, c: Byte)
    ensures var g := Group([a, b, c]);
            a * 0x10000 + b * 0x100 + c
            == Value(g[0]) * 0x40000 + Value(g[1]) * 0x1000 + Value(g[2]) * 0x40 + Value(g[3])
  {
    ValueOfLetter(a / 4);
    ValueOfLetter(a % 4 * 16 + b / 16);
    ValueOfLetter(b % 16 * 4 + c / 64);
    ValueOfLetter(c % 64);
  }

  /** One or two bytes at the end are filled up with zero bits, and padded. */
  lemma LastGroups(a: Byte, b: Byte)
    ensures Group([a])[..2] == Group([a, 0, 0])[..2] && Group([a])[2..] == [PAD, PAD]
    ensures Group([a, b])[..3] == Group([a, b, 0])[..3] && Group([a, b])[3..] == [PAD]
  {
  }

  /** `out` encodes what precedes position `i`, a multiple of three. */
  ghost predicate EncodedUpTo(s: seq<Byte>, i: nat, out: seq<Byte>) {
    if i <= |s| then out + Encode(s[i..]) == Encode(s) else out == Encode(s)
  }

  method EncodeGroup(src: seq<Byte>, i: nat) returns (g: seq<Byte>)
    requires i < |src|
    ensures g == Group(if i + 3 <= |src| then src[i..i + 3] else src[i..])
  {
    var b: int := if i + 1 < |src| then src[i + 1] else 0;
    var c: int := if i + 2 < |src| then src[i + 2] else 0;
    var n: nat := src[i] as int * 0x10000 + b * 0x100 + c;
    SextetsOf(src[i], b, c, n);
    g := [Letter(n / 0x40000 % 64), Letter(n / 0x1000 % 64),
          if i + 1 < |src| then Letter(n / 0x40 % 64) else PAD,
          if i + 2 < |src| then Letter(n % 64) else PAD];
  }

  method B64Encode(src: seq<Byte>) returns (out: seq<Byte>)
    ensures out == Encode(src)
  {
    out := [];
    var i := 0;
    EncodeEnds(src);
    while i < |src|
      invariant i <= |src| + 2 && EncodedUpTo(src, i, out)
      decreases |src| - i
    {
      var g := EncodeGroup(src, i);
      EncodeStep(src, i, out, g);
      out := out + g;
      i := i + 3;
    }
  }

  lemma EncodeEnds(s: seq<Byte>)
    ensures EncodedUpTo(s, 0, [])
    ensures forall i: nat, out | i >= |s| && EncodedUpTo(s, i, out) :: out == Encode(s)
  {
    assert s[0..] == s && s[|s|..] == [];
  }

  lemma EncodeStep(s: seq<Byte>, i: nat, out: seq<Byte>, g: seq<Byte>)
    requires i < |s| && EncodedUpTo(s, i, out)
    requires g == Group(if i + 3 <= |s| then s[i..i + 3] else s[i..])
    ensures EncodedUpTo(s, i + 3, out + g)
  {
    var t := s[i..];
    if i + 3 < |s| {
      assert t[..3] == s[i..i + 3] && t[3..] == s[i + 3..];
      Assoc<Byte>(out, g, Encode(s[i + 3..]));
    } else if i + 3 == |s| {
      assert t == s[i..i + 3] && s[i + 3..] == [];
    }
  }

  lemma {:induction false} EncodedLength(s: seq<Byte>)
    ensures |Encode(s)| == 4 * ((|s| + 2) / 3)
  {
    if |s| > 3 { EncodedLength(s[3..]); }
  }

  // ---- Decoding ----------------------------------------------------------------------

  function Pow2(n: nat): (p: nat)
    ensures p > 0
  {
    if n == 0 then 1 else 2 * Pow2(n - 1)
  }

  /** `acc` holds the `bits` bits read and not yet written. */
  predicate Pending(acc: nat, bits: nat) {
    || (bits == 0 && acc == 0) || (bits == 2 && acc < 4)
    || (bits == 4 && acc < 16) || (bits == 6 && acc < 64)
  }

  /** What the rest of the text decodes to; None when it holds another character
      than the alphabet, padding and line breaks. */
  function DecodeFrom(t: seq<Byte>, acc: nat, bits: nat): Option<seq<Byte>>
    requires Pending(acc, bits)
    decreases |t|
  {
    if t == [] then Some([])
    else if Skipped(t[0]) then DecodeFrom(t[1..], acc, bits)
    else if Value(t[0]) < 0 then None
    else
      var v := Value(t[0]);
      if bits == 0 then DecodeFrom(t[1..], v, 6)
      else if bits == 2 then Prepend(acc * 64 + v, DecodeFrom(t[1..], 0, 0))
      else if bits == 4 then Prepend(acc * 16 + v / 4, DecodeFrom(t[1..], v % 4, 2))
      else Prepend(acc * 4 + v / 16, DecodeFrom(t[1..], v % 16, 4))
  }

  function Decode(t: seq<Byte>): Option<seq<Byte>> {
    DecodeFrom(t, 0, 0)
  }

  function Join(raw: seq<Byte>, rest: Option<seq<Byte>>): Option<seq<Byte>> {
    if rest.Some? then Some(raw + rest.value) else None
  }

  lemma JoinNothing(r: Option<seq<Byte>>)
    ensures Join([], r) == r
  {
    if r.Some? { assert [] + r.value == r.value; }
  }

  lemma JoinPrepend(raw: seq<Byte>, c: Byte, rest: Option<seq<Byte>>)
    ensures Join(raw, Prepend(c, rest)) == Join(raw + [c], rest)
  {
    if rest.Some? { Assoc<Byte>(raw, [c], rest.value); }
  }

  /** One letter shifted in; with eight bits pending a byte goes out. */
  lemma DecodeStep(t: seq<Byte>, acc: nat, bits: nat, n: nat, left: nat)
    requires t != [] && Pending(acc, bits) && !Skipped(t[0]) && Value(t[0]) >= 0
    requires n == acc * 64 + Value(t[0]) && (bits >= 2 ==> left == bits - 2)
    ensures bits < 2 ==> Pending(n, bits + 6) && DecodeFrom(t, acc, bits) == DecodeFrom(t[1..], n, bits + 6)
    ensures bits >= 2 ==>
              && n / Pow2(left) < 256 && Pending(n % Pow2(left), left)
              && DecodeFrom(t, acc, bits) == Prepend(n / Pow2(left), DecodeFrom(t[1..], n % Pow2(left), left))
  {
    assert Pow2(0) == 1 && Pow2(2) == 4 && Pow2(4) == 16;
    var v := Value(t[0]);
    if bits == 4 {
      Quotient(n, 4, acc * 16 + v / 4, v % 4);
    } else if bits == 6 {
      Quotient(n, 16, acc * 4 + v / 16, v % 16);
    }
  }

  /** With `raw` written and `bits` bits pending, position `i` is on the way to
      the result. */
  ghost predicate DecodedUpTo(s: seq<Byte>, i: nat, raw: seq<Byte>, acc: nat, bits: nat) {
    i <= |s| && Pending(acc, bits) && Join(raw, DecodeFrom(s[i..], acc, bits)) == Decode(s)
  }

  lemma DecodeStart(s: seq<Byte>)
    ensures DecodedUpTo(s, 0, [], 0, 0)
  {
    assert s[0..] == s;
    JoinNothing(Decode(s));
  }

  lemma DecodeEnd(s: seq<Byte>, raw: seq<Byte>, acc: nat, bits: nat)
    requires DecodedUpTo(s, |s|, raw, acc, bits)
    ensures Decode(s) == Some(raw)
  {
    assert s[|s|..] == [] && raw + [] == raw;
  }

  lemma SkipStep(s: seq<Byte>, i: nat, raw: seq<Byte>, acc: nat, bits: nat)
    requires i < |s| && DecodedUpTo(s, i, raw, acc, bits)
    ensures Skipped(s[i]) ==> DecodedUpTo(s, i + 1, raw, acc, bits)
    ensures !Skipped(s[i]) && Value(s[i]) < 0 ==> Decode(s) == None
  {
    assert s[i..][1..] == s[i + 1..];
  }

  lemma LetterStep(s: seq<Byte>, i: nat, raw: seq<Byte>, acc: nat, bits: nat, n: nat, left: nat)
    requires i < |s| && DecodedUpTo(s, i, raw, acc, bits) && !Skipped(s[i]) && Value(s[i]) >= 0
    requires n == acc * 64 + Value(s[i]) && (bits >= 2 ==> left == bits - 2)
    ensures bits < 2 ==> DecodedUpTo(s, i + 1, raw, n, bits + 6)
    ensures bits >= 2 ==>
              n / Pow2(left) < 256 && DecodedUpTo(s, i + 1, raw + [n / Pow2(left)], n % Pow2(left), left)
  {
    assert s[i..][1..] == s[i + 1..];
    DecodeStep(s[i..], acc, bits, n, left);
    if bits >= 2 {
      JoinPrepend(raw, n / Pow2(left), DecodeFrom(s[i + 1..], n % Pow2(left), left));
    }
  }

  method DecodeContent(s: seq<Byte>) returns (r: Option<seq<Byte>>)
    ensures r == Decode(s)
  {
    var raw: seq<Byte>, acc: nat, bits: nat := [], 0, 0;
    DecodeStart(s);
    for i := 0 to |s|
      invariant DecodedUpTo(s, i, raw, acc, bits)
    {
      var c := s[i];
      SkipStep(s, i, raw, acc, bits);
      if Skipped(c) { continue; }
      if c >= 128 || Value(c) == -1 { return None; }
      LetterStep(s, i, raw, acc, bits, acc * 64 + Value(c), if bits >= 2 then bits - 2 else 0);
      acc := acc * 64 + Value(c);
      bits := bits + 6;
      if bits >= 8 {
        bits := bits - 8;
        raw := raw + [acc / Pow2(bits)];
        acc := acc % Pow2(bits);
      }
    }
    DecodeEnd(s, raw, acc, bits);
    r := Some(raw);
  }

  // ---- Round trip -----------------------------------------------------------------------

  lemma DecodeLetter(v: nat, rest: seq<Byte>, acc: nat, bits: nat)
    requires v < 64 && Pending(acc, bits)
    ensures var t := [Letter(v)] + rest;
            DecodeFrom(t, acc, bits) ==
            if bits == 0 then DecodeFrom(rest, v, 6)
            else if bits == 2 then Prepend(acc * 64 + v, DecodeFrom(rest, 0, 0))
            else if bits == 4 then Prepend(acc * 16 + v / 4, DecodeFrom(rest, v % 4, 2))
            else Prepend(acc * 4 + v / 16, DecodeFrom(rest, v % 16, 4))
  {
    ValueOfLetter(v);
    assert ([Letter(v)] + rest)[1..] == rest;
  }

  lemma DecodeFour(v0: nat, v1: nat, v2: nat, v3: nat, rest: seq<Byte>)
    requires v0 < 64 && v1 < 64 && v2 < 64 && v3 < 64
    ensures Decode([Letter(v0), Letter(v1), Letter(v2), Letter(v3)] + rest)
            == Prepend(v0 * 4 + v1 / 16, Prepend(v1 % 16 * 16 + v2 / 4, Prepend(v2 % 4 * 64 + v3, Decode(rest))))
  {
    var t3 := [Letter(v3)] + rest;
    var t2 := [Letter(v2)] + t3;
    var t1 := [Letter(v1)] + t2;
    assert [Letter(v0), Letter(v1), Letter(v2), Letter(v3)] + rest == [Letter(v0)] + t1;
    DecodeLetter(v0, t1, 0, 0);
    DecodeLetter(v1, t2, v0, 6);
    DecodeLetter(v2, t3, v1 % 16, 4);
    DecodeLetter(v3, rest, v2 % 4, 2);
  }

  lemma DecodeFullGroup(a: Byte, b: Byte, c: Byte, rest: seq<Byte>)
    ensures Decode(Group([a, b, c]) + rest) == Prepend(a, Prepend(b, Prepend(c, Decode(rest))))
  {
    var v1, v2 := a % 4 * 16 + b / 16, b % 16 * 4 + c / 64;
    Quotient(v1, 16, a % 4, b / 16);
    Quotient(v2, 4, b % 16, c / 64);
    DecodeFour(a / 4, v1, v2, c % 64, rest);
  }

  lemma DecodeOne(a: Byte)
    ensures Decode(Group([a])) == Some([a])
  {
    var v0, v1 := a / 4, a % 4 * 16;
    DecodePadding();
    assert Group([a]) == [Letter(v0)] + ([Letter(v1)] + [PAD, PAD]);
    DecodeLetter(v0, [Letter(v1)] + [PAD, PAD], 0, 0);
    Quotient(v1, 16, a % 4, 0);
    DecodeLetter(v1, [PAD, PAD], v0, 6);
    assert [a] + [] == [a];
  }

  lemma DecodeTwo(a: Byte, b: Byte)
    ensures Decode(Group([a, b])) == Some([a, b])
  {
    var v0, v1, v2 := a / 4, a % 4 * 16 + b / 16, b % 16 * 4;
    DecodePadding();
    var t2 := [Letter(v2)] + [PAD];
    var t1 := [Letter(v1)] + t2;
    assert Group([a, b]) == [Letter(v0)] + t1;
    Quotient(v1, 16, a % 4, b / 16);
    Quotient(v2, 4, b % 16, 0);
    DecodeLetter(v0, t1, 0, 0);
    DecodeLetter(v1, t2, v0, 6);
    DecodeLetter(v2, [PAD], v1 % 16, 4);
    assert [a] + ([b] + []) == [a, b];
  }

  lemma DecodePadding()
    ensures forall acc: nat, bits: nat | Pending(acc, bits) ::
              DecodeFrom([PAD], acc, bits) == Some([]) && DecodeFrom([PAD, PAD], acc, bits) == Some([])
  {
    assert [PAD][1..] == [] && [PAD, PAD][1..] == [PAD];
  }

  /** Decoding what was encoded gives back every input. */
  lemma {:induction false} DecodeEncode(s: seq<Byte>)
    ensures Decode(Encode(s)) == Some(s)
  {
    if |s| >= 3 {
      DecodeEncode(s[3..]);
      DecodeFullGroup(s[0], s[1], s[2], Encode(s[3..]));
      assert s[..3] == [s[0], s[1], s[2]];
      if |s| == 3 {
        assert s == s[..3] && s[3..] == [];
        assert Group(s) + [] == Group(s);
      }
      assert [s[0]] + ([s[1]] + ([s[2]] + s[3..])) == s;
    } else if |s| == 2 {
      DecodeTwo(s[0], s[1]);
      assert s == [s[0], s[1]];
    } else if |s| == 1 {
      DecodeOne(s[0]);
      assert s == [s[0]];
    }
  }

  // ---- Line breaks and errors -------------------------------------------------------------

  /** The text without padding and line breaks. */
  function Significant(t: seq<Byte>): seq<Byte> {
    if t == [] then []
    else if Skipped(t[0]) then Significant(t[1..])
    else [t[0]] + Significant(t[1..])
  }

  lemma {:induction false} OnlySignificantCounts(t: seq<Byte>, acc: nat, bits: nat)
    requires Pending(acc, bits)
    ensures DecodeFrom(t, acc, bits) == DecodeFrom(Significant(t), acc, bits)
    decreases |t|
  {
    if t != [] {
      var c, rest := t[0], Significant(t[1..]);
      if Skipped(c) {
        OnlySignificantCounts(t[1..], acc, bits);
      } else {
        assert ([c] + rest)[1..] == rest;
        if Value(c) >= 0 {
          var v := Value(c);
          if bits == 0 { OnlySignificantCounts(t[1..], v, 6); }
          else if bits == 2 { OnlySignificantCounts(t[1..], 0, 0); }
          else if bits == 4 { OnlySignificantCounts(t[1..], v % 4, 2); }
          else { OnlySignificantCounts(t[1..], v % 16, 4); }
        }
      }
    }
  }

  /** Line breaks (and padding) put anywhere into an encoding, or padding left
      out of it, do not change what it decodes to. */
  lemma DecodeWrapped(s: seq<Byte>, wrapped: seq<Byte>)
    requires Significant(wrapped) == Significant(Encode(s))
    ensures Decode(wrapped) == Some(s)
  {
    OnlySignificantCounts(wrapped, 0, 0);
    OnlySignificantCounts(Encode(s), 0, 0);
    DecodeEncode(s);
  }

  /** So a line break put anywhere into any text changes nothing, refusals included. */
  lemma BreakAnywhere(t: seq<Byte>, i: nat, c: Byte)
    requires i <= |t| && Skipped(c)
    ensures Decode(t[..i] + [c] + t[i..]) == Decode(t)
  {
    InsertedBreak(t, i, c);
    OnlySignificantCounts(t[..i] + [c] + t[i..], 0, 0);
    OnlySignificantCounts(t, 0, 0);
  }

  lemma {:induction false} InsertedBreak(t: seq<Byte>, i: nat, c: Byte)
    requires i <= |t| && Skipped(c)
    ensures Significant(t[..i] + [c] + t[i..]) == Significant(t)
    decreases i
  {
    var u := t[..i] + [c] + t[i..];
    if i == 0 {
      assert u[1..] == t;
    } else {
      InsertedBreak(t[1..], i - 1, c);
      assert u[1..] == t[1..][..i - 1] + [c] + t[1..][i - 1..];
    }
  }

  /** Content is refused exactly when it holds a foreign character, and it decodes
      to three bytes for every four letters, rounded down. */
  lemma {:induction false} DecodeOutcome(t: seq<Byte>, acc: nat, bits: nat)
    requires Pending(acc, bits)
    ensures DecodeFrom(t, acc, bits).None? <==> exists i :: 0 <= i < |t| && !Skipped(t[i]) && Value(t[i]) < 0
    ensures DecodeFrom(t, acc, bits).Some? ==>
              |DecodeFrom(t, acc, bits).value| == (bits + 6 * |Significant(t)|) / 8
    decreases |t|
  {
    if t != [] {
      var rest := t[1..];
      assert forall i | 0 < i < |t| :: t[i] == rest[i - 1];
      assert forall i | 0 <= i < |rest| :: rest[i] == t[i + 1];
      if Skipped(t[0]) {
        DecodeOutcome(rest, acc, bits);
      } else if Value(t[0]) >= 0 {
        var v := Value(t[0]);
        if bits == 0 { DecodeOutcome(rest, v, 6); }
        else if bits == 2 { DecodeOutcome(rest, 0, 0); }
        else if bits == 4 { DecodeOutcome(rest, v % 4, 2); }
        else { DecodeOutcome(rest, v % 16, 4); }
      }
    }
  }
}
