/** The size of the message that is sent after a cut, markers and flags included. */
module ResultMessage {
  import opened Requests
  import opened Utf8
  import opened JsonEscape
  import opened ResultTrim
  import opened ResultBudget
  import opened Doubles
  import opened HeadTail
  import Decimal

  /** Sizes are 64-bit: at most twenty digits. */
  const SIZE_LIMIT: nat := 0x1_0000_0000_0000_0000
  const MAX_DIGITS: nat := 20

  const TRUNCATED_AT: seq<Byte> := Ascii(" [truncated: ")
  const OF: seq<Byte> := Ascii(" of ")
  const OMITTED_TO_FIT: seq<Byte> := Ascii(" bytes omitted to fit the result budget] ")

  /** What stands between the ends of a cut value. */
  function CutMarker(omitted: nat, total: nat): seq<Byte> {
    [NEWLINE] + ELLIPSIS + TRUNCATED_AT + Digits(omitted) + OF + Digits(total) + OMITTED_TO_FIT + ELLIPSIS + [NEWLINE]
  }

  function Data(t: Text): seq<Byte> {
    match t
    case Whole(s) => s
    case BothEnds(prefix, omitted, total, suffix) => prefix + CutMarker(omitted, total) + suffix
  }

  /** What is sent of a value that was cut: its front, the line that counts what is
      missing, and its end, in this order; something is always missing. */
  lemma SentInOrder(raw: seq<Byte>, share: nat, out: Text) returns (x: seq<Byte>, missing: seq<Byte>, y: seq<Byte>)
    requires IsTrim(raw, share, out) && Exceeds(raw, share)
    ensures raw == x + missing + y && missing != []
    ensures Data(out) == x + CutMarker(|missing|, |raw|) + y
  {
    var h: nat, t: nat, a: nat, b: nat :| IsTwoEnded(raw, share, h, t, a, b, out);
    SomethingIsDropped(raw, share, h, t, a, b);
    x, missing, y := raw[..a], raw[a..b], raw[b..];
    ThreeParts(raw, a, b);
  }

  /** That line in full. */
  lemma CutMarkerSays(omitted: nat, total: nat)
    ensures var words := CutWords(Decimal.ToString(omitted), Decimal.ToString(total));
            && IsAscii(words)
            && CutMarker(omitted, total) == [NEWLINE] + ELLIPSIS + Ascii(words) + ELLIPSIS + [NEWLINE]
  {
    var n, m := Decimal.ToString(omitted), Decimal.ToString(total);
    NumbersAreAscii(omitted);
    NumbersAreAscii(total);
    WordsJoin(" [truncated: ", n, " of ", m, " bytes omitted to fit the result budget] ");
    InFrontOfWords([NEWLINE] + ELLIPSIS, TRUNCATED_AT, Digits(omitted), OF, Digits(total), OMITTED_TO_FIT);
  }

  function CutWords(omitted: string, total: string): string {
    " [truncated: " + omitted + " of " + total + " bytes omitted to fit the result budget] "
  }

  // ---- Lengths ----------------------------------------------------------------------

  predicate IsPlain(s: seq<Byte>) {
    forall i | 0 <= i < |s| :: s[i] >= 0x20 && s[i] != QUOTE && s[i] != BACKSLASH
  }

  lemma {:induction false} PlainLen(s: seq<Byte>)
    requires IsPlain(s)
    ensures EncodedLen(s) == |s|
  {
    if s != [] {
      PlainLen(s[1..]);
      assert EscapeByte(s[0]) == [s[0]];
    }
  }

  lemma JoinLen(a: seq<Byte>, b: seq<Byte>)
    ensures EncodedLen(a + b) == EncodedLen(a) + EncodedLen(b)
  {
    EscapeAppend(a, b);
  }

  function DigitCount(n: nat): nat { |Decimal.ToString(n)| }

  function Pow10(k: nat): nat {
    if k == 0 then 1 else 10 * Pow10(k - 1)
  }

  lemma {:induction false} DigitsUpTo(n: nat, k: nat)
    requires k >= 1 && n < Pow10(k)
    ensures DigitCount(n) <= k
    decreases k
  {
    if n >= 10 { DigitsUpTo(n / 10, k - 1); }
  }

  lemma SizeDigits(n: nat)
    requires n < SIZE_LIMIT
    ensures DigitCount(n) <= MAX_DIGITS
  {
    assert Pow10(10) == 10000000000;
    assert Pow10(20) == 100000000000000000000;
    DigitsUpTo(n, 20);
  }

  lemma DigitsLen(n: nat)
    ensures EncodedLen(Digits(n)) == DigitCount(n)
  {
    Decimal.ToStringDigits(n);
    PlainLen(Digits(n));
  }

  const MARKER_MAX: nat := 108

  /** A marker costs 68 bytes and its two numbers. */
  lemma MarkerLen(omitted: nat, total: nat)
    ensures EncodedLen(CutMarker(omitted, total)) == 68 + DigitCount(omitted) + DigitCount(total)
  {
    OpeningLen();
    OfLen();
    ClosingLen();
    DigitsLen(omitted);
    DigitsLen(total);
    MarkerParts(TRUNCATED_AT, Digits(omitted), OF, Digits(total), OMITTED_TO_FIT);
  }

  predicate IsPlainText(w: string) {
    forall i | 0 <= i < |w| :: ' ' <= w[i] < 128 as char && w[i] != '"' && w[i] != '\\'
  }

  lemma PlainTextLen(w: string)
    requires IsPlainText(w)
    ensures EncodedLen(Ascii(w)) == |w|
  {
    PlainLen(Ascii(w));
  }

  lemma OpeningLen()
    ensures EncodedLen(TRUNCATED_AT) == 13
  {
    PlainTextLen(" [truncated: ");
  }

  lemma OfLen()
    ensures EncodedLen(OF) == 4
  {
    PlainTextLen(" of ");
  }

  lemma ClosingLen()
    ensures EncodedLen(OMITTED_TO_FIT) == 41
  {
    PlainTextLen(" bytes omitted to fit the result budget] ");
  }

  lemma DotsLen()
    ensures EncodedLen([NEWLINE]) == 2 && EncodedLen(ELLIPSIS) == 3
  {
    PlainLen(ELLIPSIS);
    assert [NEWLINE][1..] == [];
  }

  lemma MarkerParts(w0: seq<Byte>, n0: seq<Byte>, w1: seq<Byte>, n1: seq<Byte>, w2: seq<Byte>)
    ensures EncodedLen([NEWLINE] + ELLIPSIS + w0 + n0 + w1 + n1 + w2 + ELLIPSIS + [NEWLINE])
            == 10 + EncodedLen(w0) + EncodedLen(n0) + EncodedLen(w1) + EncodedLen(n1) + EncodedLen(w2)
  {
    DotsLen();
    JoinLen([NEWLINE], ELLIPSIS);
    JoinLen([NEWLINE] + ELLIPSIS, w0);
    JoinLen([NEWLINE] + ELLIPSIS + w0, n0);
    JoinLen([NEWLINE] + ELLIPSIS + w0 + n0, w1);
    JoinLen([NEWLINE] + ELLIPSIS + w0 + n0 + w1, n1);
    JoinLen([NEWLINE] + ELLIPSIS + w0 + n0 + w1 + n1, w2);
    JoinLen([NEWLINE] + ELLIPSIS + w0 + n0 + w1 + n1 + w2, ELLIPSIS);
    JoinLen([NEWLINE] + ELLIPSIS + w0 + n0 + w1 + n1 + w2 + ELLIPSIS, [NEWLINE]);
  }

  // ---- The message --------------------------------------------------------------------

  function Omitted(t: Text): nat {
    if t.BothEnds? then t.omitted else 0
  }

  function DroppedTotal(outs: seq<Text>): nat {
    if outs == [] then 0 else DroppedTotal(outs[..|outs| - 1]) + Omitted(outs[|outs| - 1])
  }

  function Dropped(text: Option<Text>, outs: seq<Text>): nat {
    DroppedTotal(outs) + if text.Some? then Omitted(text.value) else 0
  }

  /** The entries <name>_truncated and <name>_dropped_bytes of a cut field, each
      with its comma, quotes and colon. */
  function FieldFlags(name: nat, t: Text): nat {
    if t.BothEnds? then (name + 18) + (name + 18 + DigitCount(t.omitted)) else 0
  }

  /** Encoded length of the fields and of their flags; `names` are the lengths of
      their names. */
  function FieldsSize(names: seq<nat>, outs: seq<Text>): nat
    requires |names| == |outs|
  {
    if outs == [] then 0
    else
      var n := |outs| - 1;
      FieldsSize(names[..n], outs[..n]) + EncodedLen(Data(outs[n])) + FieldFlags(names[n], outs[n])
  }

  /** The entries result_truncated, result_dropped_bytes and result_budget_bytes. */
  function SummaryFlags(dropped: nat, budget: nat): nat {
    24 + (24 + DigitCount(dropped)) + (23 + DigitCount(budget))
  }

  /** The line appended to the text block, its line feed escaped. */
  function NoteLen(dropped: nat, budget: nat): nat {
    19 + DigitCount(dropped) + 26 + DigitCount(budget) + 41 + 2
  }

  function TextSize(text: Option<Text>): nat {
    if text.Some? then EncodedLen(Data(text.value)) else 0
  }

  /** Length of the message after the cut: the envelope, the values with their
      markers, the flags and the note.  A flag the tool itself has set is counted
      twice, so this is an upper bound. */
  function SentSize(budget: nat, base: nat, text: Option<Text>, names: seq<nat>, outs: seq<Text>): nat
    requires |names| == |outs|
  {
    var dropped := Dropped(text, outs);
    base + TextSize(text) + FieldsSize(names, outs) + SummaryFlags(dropped, budget) + NoteLen(dropped, budget)
  }

  /** The number in each marker is a size. */
  ghost predicate Countable(t: Text) {
    t.BothEnds? ==> t.omitted < SIZE_LIMIT && t.total < SIZE_LIMIT
  }

  lemma DataLen(t: Text)
    requires Countable(t)
    ensures EncodedLen(Data(t)) <= KeptLen(t) + MARKER_MAX
  {
    match t
    case Whole(_) =>
    case BothEnds(prefix, omitted, total, suffix) =>
      JoinLen(prefix, CutMarker(omitted, total));
      JoinLen(prefix + CutMarker(omitted, total), suffix);
      MarkerLen(omitted, total);
      SizeDigits(omitted);
      SizeDigits(total);
  }

  /** What the cuts may add beside the kept bytes: for each of `n` fields with
      names of up to `name` bytes a marker and two flags; the marker of the text,
      the three summary flags and the note. */
  function Overhead(n: nat, name: nat): nat {
    n * (MARKER_MAX + 2 * name + 56) + MARKER_MAX + 111 + 128
  }

  lemma {:induction false} FieldsAdd(names: seq<nat>, outs: seq<Text>, name: nat)
    requires |names| == |outs|
    requires forall i | 0 <= i < |outs| :: names[i] <= name && Countable(outs[i])
    ensures FieldsSize(names, outs) <= KeptTotal(outs) + |outs| * (MARKER_MAX + 2 * name + 56)
  {
    if outs != [] {
      var n := |outs| - 1;
      FieldsAdd(names[..n], outs[..n], name);
      FieldAdds(names[n], outs[n], name);
      OneMore(n, MARKER_MAX + 2 * name + 56);
    }
  }

  lemma FieldAdds(len: nat, out: Text, name: nat)
    requires len <= name && Countable(out)
    ensures EncodedLen(Data(out)) + FieldFlags(len, out) <= KeptLen(out) + MARKER_MAX + 2 * name + 56
  {
    DataLen(out);
    if out.BothEnds? { SizeDigits(out.omitted); }
  }

  lemma OneMore(n: nat, per: nat)
    ensures (n + 1) * per == n * per + per
  {
  }

  ghost predicate AllCountable(text: Option<Text>, outs: seq<Text>) {
    && (text.Some? ==> Countable(text.value))
    && (forall i | 0 <= i < |outs| :: Countable(outs[i]))
    && Dropped(text, outs) < SIZE_LIMIT
  }

  lemma SentAtMost(budget: nat, base: nat, text: Option<Text>, names: seq<nat>, outs: seq<Text>, name: nat)
    requires budget < SIZE_LIMIT && AllCountable(text, outs)
    requires |names| == |outs| && forall i | 0 <= i < |outs| :: names[i] <= name
    ensures SentSize(budget, base, text, names, outs)
            <= base + KeptText(text) + KeptTotal(outs) + Overhead(|outs|, name)
  {
    FieldsAdd(names, outs, name);
    if text.Some? { DataLen(text.value); }
    SizeDigits(Dropped(text, outs));
    SizeDigits(budget);
  }

  /** After a cut within positive shares, the message as it is sent stays within
      its budget whenever the slack was set aside and covers the markers, flags and
      note; the final check that would blank the fields then never fires. */
  lemma SentMessageFits(fl: real -> real, budget: nat, base: nat, text: Option<seq<Byte>>, fields: seq<seq<Byte>>,
                        newText: Option<Text>, outs: seq<Text>, names: seq<nat>, name: nat)
    requires Rounds(fl) && base < budget && IsCut(fl, budget, base, text, fields, newText, outs)
    requires SharesServe(fl, budget, base, text, fields) && HoldsExactly(budget, Lengths(fields))
    requires |names| == |outs| && forall i | 0 <= i < |outs| :: names[i] <= name
    requires AllCountable(newText, outs)
    requires budget - base > Slack(budget) >= Overhead(|fields|, name)
    ensures SentSize(budget, base, newText, names, outs) <= budget
  {
    CutMessageFits(fl, budget, base, text, fields, newText, outs);
    SentAtMost(budget, base, newText, names, outs, name);
    assert |outs| == |fields|;
  }

  /** For the tools of the server (at most two payload fields, with names of six
      letters) a budget of 5592 bytes is enough. */
  lemma SlackIsEnough(budget: nat, n: nat)
    requires n <= 2
    ensures Slack(budget) >= Overhead(n, 6) <== budget >= 5592
  {
  }
}
