/** UTF-8 as section 4 of RFC 3629 defines it, the validity test, the sanitiser
    and character boundaries. */
module Utf8 {
  import opened Requests

  type Byte = b: int | 0 <= b < 256

  /** A byte in front of a decoding that may have failed. */
  function Prepend(c: Byte, rest: Option<seq<Byte>>): Option<seq<Byte>> {
    if rest.Some? then Some([c] + rest.value) else None
  }

  // ---- The grammar of RFC 3629, section 4 ----------------------------------------

  predicate IsTail(b: Byte) {
    0x80 <= b <= 0xBF
  }

  // The second byte is restricted after some first bytes.
  predicate ThreeStart(a: Byte, b: Byte) {
    || (a == 0xE0 && 0xA0 <= b <= 0xBF)
    || (0xE1 <= a <= 0xEC && IsTail(b))
    || (a == 0xED && 0x80 <= b <= 0x9F)
    || (0xEE <= a <= 0xEF && IsTail(b))
  }

  predicate FourStart(a: Byte, b: Byte) {
    || (a == 0xF0 && 0x90 <= b <= 0xBF)
    || (0xF1 <= a <= 0xF3 && IsTail(b))
    || (a == 0xF4 && 0x80 <= b <= 0x8F)
  }

  predicate IsChar(c: seq<Byte>) {
    || (|c| == 1 && c[0] <= 0x7F)
    || (|c| == 2 && 0xC2 <= c[0] <= 0xDF && IsTail(c[1]))
    || (|c| == 3 && ThreeStart(c[0], c[1]) && IsTail(c[2]))
    || (|c| == 4 && FourStart(c[0], c[1]) && IsTail(c[2]) && IsTail(c[3]))
  }

  function Concat(chars: seq<seq<Byte>>): seq<Byte> {
    if chars == [] then [] else chars[0] + Concat(chars[1..])
  }

  /** UTF8-octets: a sequence of characters. */
  ghost predicate WellFormed(s: seq<Byte>) {
    exists chars :: (forall c | c in chars :: IsChar(c)) && Concat(chars) == s
  }

  /** Length of the character at the head, or 0. */
  function CharLen(s: seq<Byte>): (n: nat)
    ensures n <= |s|
  {
    if |s| >= 1 && s[0] <= 0x7F then 1
    else if |s| >= 2 && 0xC2 <= s[0] <= 0xDF && IsTail(s[1]) then 2
    else if |s| >= 3 && ThreeStart(s[0], s[1]) && IsTail(s[2]) then 3
    else if |s| >= 4 && FourStart(s[0], s[1]) && IsTail(s[2]) && IsTail(s[3]) then 4
    else 0
  }

  lemma HeadIsChar(s: seq<Byte>)
    ensures CharLen(s) > 0 ==> IsChar(s[..CharLen(s)])
  {
  }

  function Valid(s: seq<Byte>): bool
    decreases |s|
  {
    s == [] || (CharLen(s) > 0 && Valid(s[CharLen(s)..]))
  }

  lemma CharLenIs(c: seq<Byte>, rest: seq<Byte>)
    requires IsChar(c)
    ensures CharLen(c + rest) == |c| && (c + rest)[|c|..] == rest
  {
  }

  /** The left-to-right test recognises exactly the grammar. */
  lemma ValidIsWellFormed(s: seq<Byte>)
    ensures Valid(s) <==> WellFormed(s)
  {
    if Valid(s) { var chars := ParseChars(s); }
    if WellFormed(s) {
      var chars :| (forall c | c in chars :: IsChar(c)) && Concat(chars) == s;
      CharsAreValid(chars);
    }
  }

  lemma {:induction false} ParseChars(s: seq<Byte>) returns (chars: seq<seq<Byte>>)
    requires Valid(s)
    ensures (forall c | c in chars :: IsChar(c)) && Concat(chars) == s
    decreases |s|
  {
    if s == [] {
      chars := [];
    } else {
      var n := CharLen(s);
      var rest := ParseChars(s[n..]);
      HeadIsChar(s);
      chars := [s[..n]] + rest;
      assert chars[1..] == rest;
      assert s[..n] + s[n..] == s;
    }
  }

  lemma {:induction false} CharsAreValid(chars: seq<seq<Byte>>)
    requires forall c | c in chars :: IsChar(c)
    ensures Valid(Concat(chars))
  {
    if chars != [] {
      assert chars[0] in chars;
      CharsAreValid(chars[1..]);
      CharLenIs(chars[0], Concat(chars[1..]));
    }
  }

  lemma {:induction false} ValidConcat(a: seq<Byte>, b: seq<Byte>)
    requires Valid(a) && Valid(b)
    ensures Valid(a + b)
    decreases |a|
  {
    if a == [] {
      assert a + b == b;
    } else {
      var n := CharLen(a);
      ValidConcat(a[n..], b);
      HeadStays(a, b);
    }
  }

  lemma HeadStays(a: seq<Byte>, b: seq<Byte>)
    requires CharLen(a) > 0
    ensures CharLen(a + b) == CharLen(a) && (a + b)[CharLen(a)..] == a[CharLen(a)..] + b
  {
  }

  lemma {:induction false} AsciiIsValid(s: seq<Byte>)
    requires forall i | 0 <= i < |s| :: s[i] < 0x80
    ensures Valid(s)
  {
    if s != [] {
      AsciiIsValid(s[1..]);
      assert s[..1] == [s[0]];
    }
  }

  // ---- The two loops of the source --------------------------------------------------

  // Masks on a byte: c & 0xE0 == 0xC0 is c / 0x20 == 6, and so on.
  predicate Continues(c: Byte) { c / 0x40 == 2 }   // c & 0xC0 == 0x80
  predicate LeadsTwo(c: Byte) { c / 0x20 == 6 }    // c & 0xE0 == 0xC0
  predicate LeadsThree(c: Byte) { c / 0x10 == 14 } // c & 0xF0 == 0xE0
  predicate LeadsFour(c: Byte) { c / 0x08 == 30 }  // c & 0xF8 == 0xF0

  /** The checks on the character that begins at `i`; 0 when they fail. */
  method CharAt(s: seq<Byte>, i: nat) returns (n: nat)
    requires i < |s|
    ensures n == CharLen(s[i..])
  {
    var c := s[i];
    n := 0;
    if c < 0x80 { n := 1; }
    else if LeadsTwo(c) { n := 2; }
    else if LeadsThree(c) { n := 3; }
    else if LeadsFour(c) { n := 4; }
    if n == 0 || i + n > |s| { return 0; }
    var k := 1;
    while k < n
      invariant 1 <= k <= n
      invariant forall j | i < j < i + k :: Continues(s[j])
    {
      if !Continues(s[i + k]) { return 0; }
      k := k + 1;
    }
    if n == 2 && c < 0xC2 { return 0; }
    if n == 3 {
      if c == 0xE0 && s[i + 1] < 0xA0 { return 0; }
      if c == 0xED && s[i + 1] >= 0xA0 { return 0; }
    }
    if n == 4 {
      if c == 0xF0 && s[i + 1] < 0x90 { return 0; }
      if c == 0xF4 && s[i + 1] >= 0x90 { return 0; }
      if c > 0xF4 { return 0; }
    }
  }

  lemma ValidBehind(s: seq<Byte>, i: nat, n: nat)
    requires i < |s| && n == CharLen(s[i..])
    ensures n == 0 ==> !Valid(s[i..])
    ensures n > 0 ==> i + n <= |s| && (Valid(s[i..]) <==> Valid(s[i + n..]))
  {
    assert s[i..][n..] == s[i + n..];
  }

  method IsValidUtf8(s: seq<Byte>) returns (ok: bool)
    ensures ok <==> WellFormed(s)
  {
    var i := 0;
    ValidIsWellFormed(s);
    assert s[0..] == s;
    while i < |s|
      invariant 0 <= i <= |s| && (Valid(s) <==> Valid(s[i..]))
    {
      var n := CharAt(s, i);
      ValidBehind(s, i, n);
      if n == 0 { return false; }
      i := i + n;
    }
    return true;
  }

  const REPLACEMENT: seq<Byte> := [0xEF, 0xBF, 0xBD]

  /** Each byte that begins no character becomes U+FFFD. */
  function Sanitized(s: seq<Byte>): seq<Byte>
    decreases |s|
  {
    if s == [] then []
    else if CharLen(s) > 0 then s[..CharLen(s)] + Sanitized(s[CharLen(s)..])
    else REPLACEMENT + Sanitized(s[1..])
  }

  /** Length of the well-formed sequence at `i`, or 0 when the byte there has to
      be replaced. */
  method SequenceAt(s: seq<Byte>, i: nat) returns (n: nat)
    requires i < |s|
    ensures n == CharLen(s[i..])
  {
    var c := s[i];
    n := 0;
    if c < 0x80 { n := 1; }
    else if c < 0xC2 { }
    else if c < 0xE0 { n := 2; }
    else if c < 0xF0 { n := 3; }
    else if c <= 0xF4 { n := 4; }
    if n == 0 || i + n > |s| { return 0; }
    var j := 1;
    while j < n
      invariant 1 <= j <= n
      invariant forall k | i < k < i + j :: Continues(s[k])
    {
      if !Continues(s[i + j]) { return 0; }
      j := j + 1;
    }
    if n == 3 {
      if c == 0xE0 && s[i + 1] < 0xA0 { return 0; }
      if c == 0xED && s[i + 1] >= 0xA0 { return 0; }
    } else if n == 4 {
      if c == 0xF0 && s[i + 1] < 0x90 { return 0; }
      if c == 0xF4 && s[i + 1] > 0x8F { return 0; }
    }
  }

  /** `out` is the sanitised form of what precedes position `i`. */
  ghost predicate SanitizedUpTo(s: seq<Byte>, i: nat, out: seq<Byte>) {
    i <= |s| && out + Sanitized(s[i..]) == Sanitized(s)
  }

  method EnsureValidUtf8(s: seq<Byte>) returns (out: seq<Byte>)
    ensures out == Sanitized(s)
  {
    out := [];
    var i := 0;
    SanitizeEnds(s);
    while i < |s|
      invariant SanitizedUpTo(s, i, out)
    {
      var n := SequenceAt(s, i);
      SanitizeStep(s, i, out, n);
      if n > 0 {
        out := out + s[i..i + n];
        i := i + n;
      } else {
        out := out + REPLACEMENT;
        i := i + 1;
      }
    }
  }

  lemma SanitizeEnds(s: seq<Byte>)
    ensures SanitizedUpTo(s, 0, [])
    ensures forall out | SanitizedUpTo(s, |s|, out) :: out == Sanitized(s)
  {
    assert s[0..] == s && s[|s|..] == [];
  }

  lemma SanitizeStep(s: seq<Byte>, i: nat, out: seq<Byte>, n: nat)
    requires i < |s| && n == CharLen(s[i..]) && SanitizedUpTo(s, i, out)
    ensures n > 0 ==> SanitizedUpTo(s, i + n, out + s[i..i + n])
    ensures n == 0 ==> SanitizedUpTo(s, i + 1, out + REPLACEMENT)
  {
    var t := s[i..];
    if n > 0 {
      assert t[..n] == s[i..i + n] && t[n..] == s[i + n..];
      Assoc<Byte>(out, s[i..i + n], Sanitized(s[i + n..]));
    } else {
      assert t[1..] == s[i + 1..];
      Assoc<Byte>(out, REPLACEMENT, Sanitized(s[i + 1..]));
    }
  }

  // ---- What sanitising guarantees ---------------------------------------------------

  lemma {:induction false} SanitizedIsValid(s: seq<Byte>)
    ensures Valid(Sanitized(s))
    decreases |s|
  {
    if s != [] {
      var n := CharLen(s);
      if n > 0 {
        SanitizedIsValid(s[n..]);
        HeadIsChar(s);
        CharLenIs(s[..n], Sanitized(s[n..]));
      } else {
        SanitizedIsValid(s[1..]);
        CharLenIs(REPLACEMENT, Sanitized(s[1..]));
      }
    }
  }

  lemma {:induction false} ValidIsUnchanged(s: seq<Byte>)
    requires Valid(s)
    ensures Sanitized(s) == s
    decreases |s|
  {
    if s != [] {
      ValidIsUnchanged(s[CharLen(s)..]);
      assert s[..CharLen(s)] + s[CharLen(s)..] == s;
    }
  }

  /** Valid text in front of anything survives as it is. */
  lemma {:induction false} ValidFrontSurvives(a: seq<Byte>, b: seq<Byte>)
    requires Valid(a)
    ensures Sanitized(a + b) == a + Sanitized(b)
    decreases |a|
  {
    if a == [] {
      assert a + b == b;
    } else {
      var n := CharLen(a);
      ValidFrontSurvives(a[n..], b);
      HeadStays(a, b);
      FrontOf(a, b, n);
      FirstCharSurvives(a + b, n);
      JoinFront(a[..n], a[n..], a, Sanitized(b));
    }
  }

  lemma FirstCharSurvives(s: seq<Byte>, n: nat)
    requires 0 < n == CharLen(s)
    ensures Sanitized(s) == s[..n] + Sanitized(s[n..])
  {
  }

  lemma FrontOf(a: seq<Byte>, b: seq<Byte>, n: nat)
    requires n <= |a|
    ensures (a + b)[..n] == a[..n] && a[..n] + a[n..] == a
  {
  }

  lemma JoinFront(x: seq<Byte>, y: seq<Byte>, whole: seq<Byte>, z: seq<Byte>)
    requires whole == x + y
    ensures x + (y + z) == whole + z
  {
    Assoc<Byte>(x, y, z);
  }

  /** A byte at which no character begins is replaced by itself alone: the valid text on
      both sides of it stays. */
  lemma StrayByteIsReplaced(a: seq<Byte>, x: Byte, b: seq<Byte>)
    requires Valid(a) && Valid(b) && CharLen([x] + b) == 0
    ensures Sanitized(a + ([x] + b)) == a + (REPLACEMENT + b)
  {
    ValidFrontSurvives(a, [x] + b);
    assert ([x] + b)[1..] == b;
    ValidIsUnchanged(b);
  }

  lemma {:induction false} SanitizedLength(s: seq<Byte>)
    ensures |s| <= |Sanitized(s)| <= 3 * |s|
    decreases |s|
  {
    if s != [] {
      if CharLen(s) > 0 { SanitizedLength(s[CharLen(s)..]); } else { SanitizedLength(s[1..]); }
    }
  }

  /** The result is always well-formed, it is the input exactly when that was, a
      second pass changes nothing, and it is at most three times as long. */
  lemma SanitizerContract(s: seq<Byte>)
    ensures WellFormed(Sanitized(s))
    ensures Sanitized(s) == s <==> WellFormed(s)
    ensures Sanitized(Sanitized(s)) == Sanitized(s)
    ensures |Sanitized(s)| <= 3 * |s|
  {
    SanitizedIsValid(s);
    ValidIsWellFormed(s);
    ValidIsWellFormed(Sanitized(s));
    ValidIsUnchanged(Sanitized(s));
    if Valid(s) { ValidIsUnchanged(s); }
    SanitizedLength(s);
  }

  // ---- Character boundaries ------------------------------------------------------------

  predicate AtBoundary(s: seq<Byte>, p: nat) {
    p == |s| || (p < |s| && !Continues(s[p]))
  }

  /** In valid text, a cut leaves two valid parts exactly when it does not stand in
      front of a continuation byte. */
  lemma {:induction false} CutIsValidAtBoundary(s: seq<Byte>, p: nat)
    requires Valid(s) && p <= |s|
    ensures Valid(s[..p]) && Valid(s[p..]) <==> AtBoundary(s, p)
    ensures Valid(s[p..]) <==> AtBoundary(s, p)
    decreases |s|
  {
    if s == [] {
    } else if p == 0 {
      assert s[0..] == s && s[..0] == [];
      CharLenByLeadOfValid(s);
    } else {
      var n := CharLen(s);
      CharLenByLeadOfValid(s);
      if p < n {
        assert Continues(s[p]);
        TailStartsNoChar(s[p..]);
      } else {
        CutIsValidAtBoundary(s[n..], p - n);
        CutBehind(s, n, p);
        if AtBoundary(s, p) {
          HeadIsChar(s);
          CharLenIs(s[..n], s[n..][..p - n]);
        }
      }
    }
  }

  lemma CutBehind(s: seq<Byte>, n: nat, p: nat)
    requires n <= p <= |s|
    ensures s[n..][p - n..] == s[p..] && s[..p] == s[..n] + s[n..][..p - n]
  {
  }

  lemma CharLenByLeadOfValid(s: seq<Byte>)
    requires Valid(s) && s != []
    ensures !Continues(s[0]) && forall k | 1 <= k < CharLen(s) :: Continues(s[k])
  {
  }

  lemma TailStartsNoChar(s: seq<Byte>)
    requires s != [] && Continues(s[0])
    ensures !Valid(s)
  {
  }

  /** The nearest position at or before `pos` that is not inside a character. */
  function Floor(s: seq<Byte>, pos: nat): (p: nat)
    ensures p <= |s| && (pos <= |s| ==> p <= pos)
    ensures pos < |s| ==> forall k | p < k <= pos :: Continues(s[k])
    ensures p > 0 ==> AtBoundary(s, p)
  {
    if pos >= |s| then |s|
    else if pos > 0 && Continues(s[pos]) then Floor(s, pos - 1)
    else pos
  }

  method Utf8Floor(s: seq<Byte>, pos: nat) returns (p: nat)
    ensures p == Floor(s, pos)
  {
    if pos >= |s| { return |s|; }
    p := pos;
    while p > 0 && Continues(s[p])
      invariant p <= pos && Floor(s, p) == Floor(s, pos)
    {
      p := p - 1;
    }
  }

  lemma FloorIsBoundary(s: seq<Byte>, pos: nat)
    requires Valid(s)
    ensures AtBoundary(s, Floor(s, pos))
  {
    if s != [] { CharLenByLeadOfValid(s); }
  }
}
