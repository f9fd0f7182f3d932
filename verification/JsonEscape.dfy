/** The string escape of section 7 of RFC 8259 in the compact form the server
    sends, and sizing a value without serialising it. */
module JsonEscape {
  import opened Requests
  import opened Utf8

  const BACKSLASH: Byte := 0x5C
  const QUOTE: Byte := 0x22

  /** The letter after the backslash of a two-byte escape, or 0. */
  function ShortForm(c: Byte): Byte {
    if c == 0x08 then 0x62 else if c == 0x09 then 0x74 else if c == 0x0A then 0x6E
    else if c == 0x0C then 0x66 else if c == 0x0D then 0x72
    else if c == QUOTE || c == BACKSLASH then c else 0
  }

  function HexDigit(v: nat): Byte
    requires v < 16
  {
    if v < 10 then 0x30 + v else 0x61 + v - 10
  }

  function EscapeByte(c: Byte): seq<Byte> {
    if ShortForm(c) != 0 then [BACKSLASH, ShortForm(c)]
    else if c <= 0x1F then [BACKSLASH, 0x75, 0x30, 0x30, HexDigit(c / 16), HexDigit(c % 16)]
    else [c]
  }

  /** What stands between the quotes of the serialised value. */
  function Escape(s: seq<Byte>): seq<Byte> {
    if s == [] then [] else EscapeByte(s[0]) + Escape(s[1..])
  }

  // ---- The reader's side -------------------------------------------------------------

  function HexValue(c: Byte): Option<nat> {
    if 0x30 <= c <= 0x39 then Some(c - 0x30)
    else if 0x61 <= c <= 0x66 then Some(c - 0x61 + 10)
    else if 0x41 <= c <= 0x46 then Some(c - 0x41 + 10)
    else None
  }

  function LongForm(c: Byte): Byte {
    if c == 0x62 then 0x08 else if c == 0x74 then 0x09 else if c == 0x6E then 0x0A
    else if c == 0x66 then 0x0C else if c == 0x72 then 0x0D
    else if c == QUOTE || c == BACKSLASH || c == 0x2F then c else 0
  }

  /** Code unit of the escape \uXXXX at the head, when it is below 0x80. */
  function AsciiUnit(t: seq<Byte>): Option<Byte> {
    if |t| < 6 || t[0] != BACKSLASH || t[1] != 0x75 || t[2] != 0x30 || t[3] != 0x30 then None
    else match (HexValue(t[4]), HexValue(t[5]))
         case (Some(hi), Some(lo)) => if hi < 8 then Some(hi * 16 + lo) else None
         case _ => None
  }

  /** A JSON string body read back to bytes; None for what the grammar does not
      allow (escapes of code points from U+0080 on, which the server never
      writes, are not decoded). */
  function Unescape(t: seq<Byte>): Option<seq<Byte>>
    decreases |t|
  {
    if t == [] then Some([])
    else if t[0] == BACKSLASH then
      if |t| > 1 && LongForm(t[1]) != 0 then Prepend(LongForm(t[1]), Unescape(t[2..]))
      else if AsciiUnit(t).Some? then Prepend(AsciiUnit(t).value, Unescape(t[6..]))
      else None
    else if t[0] == QUOTE || t[0] <= 0x1F then None
    else Prepend(t[0], Unescape(t[1..]))
  }

  lemma UnescapeOne(c: Byte, rest: seq<Byte>)
    ensures Unescape(EscapeByte(c) + rest) == Prepend(c, Unescape(rest))
  {
    var t := EscapeByte(c) + rest;
    if ShortForm(c) != 0 {
      assert t[2..] == rest;
    } else if c <= 0x1F {
      assert t[6..] == rest;
    } else {
      assert t[1..] == rest;
    }
  }

  /** A reader gets back exactly the bytes that were escaped. */
  lemma {:induction false} UnescapeEscape(s: seq<Byte>)
    ensures Unescape(Escape(s)) == Some(s)
  {
    if s != [] {
      UnescapeEscape(s[1..]);
      UnescapeOne(s[0], Escape(s[1..]));
      assert [s[0]] + s[1..] == s;
    }
  }

  /** An escaped value holds no control byte, so a message written without
      indentation is one line. */
  lemma {:induction false} EscapeHasNoControls(s: seq<Byte>)
    ensures forall i | 0 <= i < |Escape(s)| :: Escape(s)[i] >= 0x20
  {
    if s != [] { EscapeHasNoControls(s[1..]); }
  }

  /** No escaped form is shorter: whatever else a reader reads back as the same bytes
      is at least as long. */
  lemma {:induction false} EscapeIsShortest(t: seq<Byte>)
    requires Unescape(t).Some?
    ensures |Escape(Unescape(t).value)| <= |t|
    decreases |t|
  {
    if t != [] {
      var n := if t[0] != BACKSLASH then 1 else if |t| > 1 && LongForm(t[1]) != 0 then 2 else 6;
      EscapeIsShortest(t[n..]);
      var c, rest := Unescape(t).value[0], Unescape(t[n..]).value;
      assert Unescape(t).value == [c] + rest && ([c] + rest)[1..] == rest;
      ShortestOf(t, c);
    }
  }

  lemma ShortestOf(t: seq<Byte>, c: Byte)
    requires t != []
    requires if t[0] != BACKSLASH then c == t[0] && c > 0x1F && c != QUOTE
             else if |t| > 1 && LongForm(t[1]) != 0 then c == LongForm(t[1])
             else AsciiUnit(t) == Some(c)
    ensures |EscapeByte(c)| <= if t[0] != BACKSLASH then 1 else if |t| > 1 && LongForm(t[1]) != 0 then 2 else 6
  {
  }

  // ---- Sizes ---------------------------------------------------------------------------

  function Width(c: Byte): (w: nat)
    ensures w == |EscapeByte(c)| && 1 <= w <= 6
  {
    if c == 0x08 || c == 0x09 || c == 0x0A || c == 0x0C || c == 0x0D || c == 0x22 || c == 0x5C then 2
    else if c <= 0x1F then 6 else 1
  }

  /** Encoded length of the bytes in [i, j). */
  function Cost(s: seq<Byte>, i: nat, j: nat): (n: nat)
    requires i <= j <= |s|
    ensures n >= j - i
    decreases j - i
  {
    if i == j then 0 else Cost(s, i, j - 1) + Width(s[j - 1])
  }

  method EscapedLen(s: seq<Byte>) returns (len: nat)
    ensures len == Cost(s, 0, |s|) == |Escape(s)|
  {
    len := 0;
    for i := 0 to |s|
      invariant len == Cost(s, 0, i)
    {
      var c := s[i];
      if c == 0x08 || c == 0x09 || c == 0x0A || c == 0x0C || c == 0x0D || c == 0x22 || c == 0x5C {
        len := len + 2;
      } else {
        len := len + if c <= 0x1F then 6 else 1;
      }
    }
    CostIsEscapedLength(s, 0, |s|);
    assert s[0..|s|] == s;
  }

  lemma {:induction false} EscapeAppend(a: seq<Byte>, b: seq<Byte>)
    ensures Escape(a + b) == Escape(a) + Escape(b)
  {
    if a == [] {
      assert a + b == b;
    } else {
      EscapeAppend(a[1..], b);
      assert (a + b)[1..] == a[1..] + b;
      Assoc<Byte>(EscapeByte(a[0]), Escape(a[1..]), Escape(b));
    }
  }

  /** The count is the length of the escape it never builds. */
  lemma {:induction false} CostIsEscapedLength(s: seq<Byte>, i: nat, j: nat)
    requires i <= j <= |s|
    ensures Cost(s, i, j) == |Escape(s[i..j])|
    decreases j
  {
    if i < j {
      CostIsEscapedLength(s, i, j - 1);
      assert s[i..j] == s[i..j - 1] + [s[j - 1]];
      EscapeAppend(s[i..j - 1], [s[j - 1]]);
      EscapeOne(s[j - 1]);
    }
  }

  lemma EscapeOne(c: Byte)
    ensures Escape([c]) == EscapeByte(c)
  {
    assert [c][1..] == [];
  }

  lemma {:induction false} CostAdds(s: seq<Byte>, i: nat, k: nat, j: nat)
    requires i <= k <= j <= |s|
    ensures Cost(s, i, j) == Cost(s, i, k) + Cost(s, k, j)
    decreases j
  {
    if k < j { CostAdds(s, i, k, j - 1); }
  }
}
