/** Reducing long command output to its head and tail. */
module HeadTail {
  import opened Requests
  import opened Utf8
  import Decimal

  const NEWLINE: Byte := 10
  const ELLIPSIS: seq<Byte> := [0xE2, 0x80, 0xA6]

  predicate IsAscii(s: string) {
    forall i | 0 <= i < |s| :: s[i] < 128 as char
  }

  function Ascii(s: string): (b: seq<Byte>)
    requires IsAscii(s)
    ensures |b| == |s| && Valid(b)
  {
    var b: seq<Byte> := seq(|s|, i requires 0 <= i < |s| => s[i] as int);
    AsciiIsValid(b);
    b
  }

  function Digits(n: nat): (b: seq<Byte>)
    ensures Valid(b)
  {
    Decimal.ToStringDigits(n);
    Ascii(Decimal.ToString(n))
  }

  /** std::string::rfind('\n', from). */
  function LastNewline(s: seq<Byte>, from: nat): (r: Option<nat>)
    ensures r.Some? ==> r.value <= from && r.value < |s| && s[r.value] == NEWLINE
    ensures forall k | (if r.Some? then r.value else -1) < k <= from && 0 <= k < |s| :: s[k] != NEWLINE
  {
    if from < |s| && s[from] == NEWLINE then Some(from)
    else if from == 0 then None
    else LastNewline(s, from - 1)
  }

  /** std::string::find('\n', from). */
  function FirstNewline(s: seq<Byte>, from: nat): (r: Option<nat>)
    ensures r.Some? ==> from <= r.value < |s| && s[r.value] == NEWLINE
    ensures forall k | from <= k < (if r.Some? then r.value else |s|) :: s[k] != NEWLINE
    decreases |s| - from
  {
    if from >= |s| then None
    else if s[from] == NEWLINE then Some(from)
    else FirstNewline(s, from + 1)
  }

  function HeadEnd(s: seq<Byte>, head: nat): (a: nat)
    requires head <= |s|
    ensures a <= head
  {
    var cut := Floor(s, head);
    var nl := LastNewline(s, cut);
    if nl.Some? && nl.value + 1 <= cut then nl.value + 1 else cut
  }

  function TailCut(s: seq<Byte>, tail: nat): (b: nat)
    requires tail <= |s|
    ensures b <= |s| && |s| - b >= tail / 2
  {
    var cut := Floor(s, |s| - tail);
    var nl := FirstNewline(s, cut);
    if nl.Some? && nl.value + 1 < |s| && nl.value + 1 <= |s| - tail / 2 then nl.value + 1 else cut
  }

  function TailStart(s: seq<Byte>, head: nat, tail: nat): (b: nat)
    requires head + tail < |s|
    ensures HeadEnd(s, head) <= b <= |s| && |s| - b >= tail / 2
  {
    if TailCut(s, tail) <= HeadEnd(s, head) then HeadEnd(s, head) else TailCut(s, tail)
  }

  const TRUNCATED: seq<Byte> := Ascii(" [truncated: ")
  const BYTES_OF: seq<Byte> := Ascii(" bytes of ")
  const OMITTED: seq<Byte> := Ascii(" omitted] ")

  function Marker(omitted: nat, total: nat): seq<Byte> {
    [NEWLINE] + ELLIPSIS + TRUNCATED
    + (Digits(omitted) + BYTES_OF + Digits(total))
    + (OMITTED + ELLIPSIS + [NEWLINE])
  }

  /** Reduced text: everything, or both ends and the byte counts of the marker. */
  datatype Text = Whole(s: seq<Byte>) | BothEnds(prefix: seq<Byte>, omitted: nat, total: nat, suffix: seq<Byte>)

  function Reduced(s: seq<Byte>, head: nat, tail: nat): Text {
    if |s| <= head + tail then Whole(s)
    else
      var a, b := HeadEnd(s, head), TailStart(s, head, tail);
      BothEnds(s[..a], b - a, |s|, s[b..])
  }

  function Render(t: Text): seq<Byte> {
    match t
    case Whole(s) => s
    case BothEnds(prefix, omitted, total, suffix) => prefix + Marker(omitted, total) + suffix
  }

  method SnapHead(s: seq<Byte>, headBytes: nat) returns (headEnd: nat)
    requires headBytes <= |s|
    ensures headEnd == HeadEnd(s, headBytes)
  {
    headEnd := Utf8Floor(s, headBytes);
    var nl := LastNewline(s, headEnd);
    if nl.Some? && nl.value + 1 <= headEnd { headEnd := nl.value + 1; }
  }

  method SnapTail(s: seq<Byte>, tailBytes: nat) returns (tailStart: nat)
    requires tailBytes <= |s|
    ensures tailStart == TailCut(s, tailBytes)
  {
    tailStart := Utf8Floor(s, |s| - tailBytes);
    var nl := FirstNewline(s, tailStart);
    if nl.Some? && nl.value + 1 < |s| {
      var snapped := nl.value + 1;
      if snapped <= |s| - tailBytes / 2 { tailStart := snapped; }
    }
  }

  method HeadTailReduce(s: seq<Byte>, headBytes: nat, tailBytes: nat) returns (r: Text)
    ensures r == Reduced(s, headBytes, tailBytes)
  {
    if |s| <= headBytes + tailBytes { return Whole(s); }
    var headEnd := SnapHead(s, headBytes);
    var tailStart := SnapTail(s, tailBytes);
    if tailStart <= headEnd { tailStart := headEnd; }
    return BothEnds(s[..headEnd], tailStart - headEnd, |s|, s[tailStart..]);
  }

  // ---- What is kept ---------------------------------------------------------------

  /** What is kept in front ends with its last complete line, unless it holds no line
      feed or the next byte is one; otherwise only the bytes of a split character are
      given up. */
  lemma HeadLosesOnlyALine(s: seq<Byte>, head: nat, tail: nat)
    requires |s| > head + tail
    ensures var a, cut := |Reduced(s, head, tail).prefix|, Floor(s, head);
            && a <= cut <= head && (forall k | a <= k < cut :: s[k] != NEWLINE)
            && if s[cut] == NEWLINE then a == cut
               else if forall k | 0 <= k < cut :: s[k] != NEWLINE then a == cut
               else a > 0 && s[a - 1] == NEWLINE
    ensures Valid(s) ==> head - Floor(s, head) <= 3
  {
    if Valid(s) { FloorNear(s, head); }
    FloorIsBelow(s, head);
    var cut := Floor(s, head);
    var nl := LastNewline(s, cut);
    if !(forall k | 0 <= k < cut :: s[k] != NEWLINE) { assert nl.Some?; }
  }

  lemma FloorIsBelow(s: seq<Byte>, pos: nat)
    requires pos < |s|
    ensures Floor(s, pos) <= pos < |s|
  {
  }

  /** What is kept behind (unless nothing is omitted) begins with the first line that
      starts in the part its budget cuts off, if one starts there early enough to
      leave half of the budget and a byte; otherwise with the whole budget. */
  lemma TailLosesOnlyALine(s: seq<Byte>, head: nat, tail: nat)
    requires |s| > head + tail && Reduced(s, head, tail).omitted > 0
    ensures var b, cut := |s| - |Reduced(s, head, tail).suffix|, Floor(s, |s| - tail);
            && cut <= b && (cut <= |s| - tail)
            && if exists k :: StartsALine(s, tail, k) && cut <= k
               then b > cut && StartsALine(s, tail, b - 1) && forall k | cut <= k < b - 1 :: s[k] != NEWLINE
               else b == cut
  {
    var cut := Floor(s, |s| - tail);
    FloorIsWithin(s, |s| - tail);
    var nl := FirstNewline(s, cut);
    assert TailStart(s, head, tail) == TailCut(s, tail);
    if nl.Some? && StartsALine(s, tail, nl.value) { assert cut <= nl.value; }
    forall k | StartsALine(s, tail, k) && cut <= k ensures nl.Some? && nl.value <= k {}
  }

  /** A line starts behind `k`, with at least half of the budget and a byte after it. */
  predicate StartsALine(s: seq<Byte>, tail: nat, k: nat) {
    k + 1 < |s| && s[k] == NEWLINE && k + 1 + tail / 2 <= |s|
  }

  lemma FloorIsWithin(s: seq<Byte>, pos: nat)
    requires pos <= |s|
    ensures Floor(s, pos) <= pos
  {
  }

  /** The reduced text is short: valid text keeps at most the two budgets and the rest
      of one character. */
  lemma ReducedIsShort(s: seq<Byte>, head: nat, tail: nat)
    requires |s| > head + tail
    ensures var t := Reduced(s, head, tail);
            && t.BothEnds? && |t.prefix| <= head
            && (Valid(s) ==> |t.suffix| <= tail + 3 && |t.prefix| + |t.suffix| <= head + tail + 3)
  {
    if Valid(s) { FloorNear(s, |s| - tail); }
  }

  /** Valid text has no more than three continuation bytes in a row. */
  lemma FloorNear(s: seq<Byte>, pos: nat)
    requires Valid(s) && pos <= |s|
    ensures pos - Floor(s, pos) <= 3
  {
    var p := Floor(s, pos);
    if p + 3 < pos {
      FloorIsBoundary(s, pos);
      CutIsValidAtBoundary(s, p);
      FourContinue(s[p..]);
    }
  }

  lemma FourContinue(t: seq<Byte>)
    requires |t| > 4 && forall k | 1 <= k <= 4 :: Continues(t[k])
    ensures !Valid(t)
  {
    var n := CharLen(t);
    if n > 0 { TailStartsNoChar(t[n..]); }
  }

  lemma AfterNewline(s: seq<Byte>, nl: nat)
    requires Valid(s) && nl < |s| && s[nl] == NEWLINE
    ensures AtBoundary(s, nl + 1)
  {
    CutIsValidAtBoundary(s, nl);
    assert s[nl..][1..] == s[nl + 1..];
    CutIsValidAtBoundary(s, nl + 1);
  }

  lemma HeadAtBoundary(s: seq<Byte>, head: nat)
    requires Valid(s) && head <= |s|
    ensures AtBoundary(s, HeadEnd(s, head))
  {
    FloorIsBoundary(s, head);
    var nl := LastNewline(s, Floor(s, head));
    if nl.Some? { AfterNewline(s, nl.value); }
  }

  lemma TailAtBoundary(s: seq<Byte>, tail: nat)
    requires Valid(s) && tail <= |s|
    ensures AtBoundary(s, TailCut(s, tail))
  {
    FloorIsBoundary(s, |s| - tail);
    var nl := FirstNewline(s, Floor(s, |s| - tail));
    if nl.Some? { AfterNewline(s, nl.value); }
  }

  lemma MarkerIsValid(omitted: nat, total: nat)
    ensures Valid(Marker(omitted, total))
  {
    WordsAreValid();
    MarkerOf(TRUNCATED, Digits(omitted), BYTES_OF, Digits(total), OMITTED);
  }

  lemma WordsAreValid()
    ensures Valid(TRUNCATED) && Valid(BYTES_OF) && Valid(OMITTED)
  {
  }

  lemma MarkerOf(w0: seq<Byte>, n0: seq<Byte>, w1: seq<Byte>, n1: seq<Byte>, w2: seq<Byte>)
    requires Valid(w0) && Valid(n0) && Valid(w1) && Valid(n1) && Valid(w2)
    ensures Valid([NEWLINE] + ELLIPSIS + w0 + (n0 + w1 + n1) + (w2 + ELLIPSIS + [NEWLINE]))
  {
    DotsAround(w0);
    DotsAround(w2);
    ValidConcat(n0, w1);
    ValidConcat(n0 + w1, n1);
    ValidConcat([NEWLINE] + ELLIPSIS + w0, n0 + w1 + n1);
    ValidConcat([NEWLINE] + ELLIPSIS + w0 + (n0 + w1 + n1), w2 + ELLIPSIS + [NEWLINE]);
  }

  lemma DotsAround(words: seq<Byte>)
    requires Valid(words)
    ensures Valid([NEWLINE] + ELLIPSIS + words) && Valid(words + ELLIPSIS + [NEWLINE])
  {
    CharIsValid([NEWLINE]);
    CharIsValid(ELLIPSIS);
    ValidConcat([NEWLINE], ELLIPSIS);
    ValidConcat([NEWLINE] + ELLIPSIS, words);
    ValidConcat(words, ELLIPSIS);
    ValidConcat(words + ELLIPSIS, [NEWLINE]);
  }

  lemma CharIsValid(c: seq<Byte>)
    requires IsChar(c)
    ensures Valid(c)
  {
    CharLenIs(c, []);
    assert c + [] == c;
  }

  lemma RenderIsValid(prefix: seq<Byte>, omitted: nat, total: nat, suffix: seq<Byte>)
    requires Valid(prefix) && Valid(suffix)
    ensures Valid(Render(BothEnds(prefix, omitted, total, suffix)))
  {
    var m := Marker(omitted, total);
    MarkerIsValid(omitted, total);
    ValidConcat(prefix, m);
    ValidConcat(prefix + m, suffix);
  }

  lemma EndsAreValidText(s: seq<Byte>, head: nat, tail: nat)
    requires Valid(s) && head + tail < |s|
    ensures Valid(s[..HeadEnd(s, head)]) && Valid(s[TailStart(s, head, tail)..])
  {
    HeadAtBoundary(s, head);
    TailAtBoundary(s, tail);
    CutIsValidAtBoundary(s, HeadEnd(s, head));
    CutIsValidAtBoundary(s, TailStart(s, head, tail));
  }

  /** Reducing valid UTF-8 gives valid UTF-8. */
  lemma ReducedIsValid(s: seq<Byte>, head: nat, tail: nat)
    requires WellFormed(s)
    ensures WellFormed(Render(Reduced(s, head, tail)))
  {
    var t := Reduced(s, head, tail);
    ValidIsWellFormed(s);
    ValidIsWellFormed(Render(t));
    if t.BothEnds? {
      EndsAreValidText(s, head, tail);
      RenderIsValid(t.prefix, t.omitted, t.total, t.suffix);
    }
  }

  /** A true prefix within the head budget, a true suffix of at least half the
      tail budget, no overlap, and the exact count of the missing bytes; text
      within the budget is returned untouched. */
  lemma ReducedKeepsBothEnds(s: seq<Byte>, head: nat, tail: nat) returns (missing: seq<Byte>)
    ensures |s| <= head + tail ==> Reduced(s, head, tail) == Whole(s)
    ensures |s| > head + tail ==>
              var t := Reduced(s, head, tail);
              && t.BothEnds? && t.prefix + missing + t.suffix == s
              && |t.prefix| <= head && |t.suffix| >= tail / 2
              && t.omitted == |missing| && t.total == |s|
  {
    missing := [];
    if |s| > head + tail {
      var a, b := HeadEnd(s, head), TailStart(s, head, tail);
      missing := s[a..b];
      ThreeParts(s, a, b);
    }
  }

  /** What the client reads: the kept front, the line that counts what is missing, and
      the kept end, in this order. */
  lemma RenderedInOrder(s: seq<Byte>, head: nat, tail: nat) returns (x: seq<Byte>, missing: seq<Byte>, y: seq<Byte>)
    requires |s| > head + tail
    ensures s == x + missing + y && |x| <= head && |y| >= tail / 2
    ensures Render(Reduced(s, head, tail)) == x + Marker(|missing|, |s|) + y
  {
    missing := ReducedKeepsBothEnds(s, head, tail);
    x, y := Reduced(s, head, tail).prefix, Reduced(s, head, tail).suffix;
  }

  lemma AsciiAppend(a: string, b: string)
    requires IsAscii(a) && IsAscii(b)
    ensures IsAscii(a + b) && Ascii(a + b) == Ascii(a) + Ascii(b)
  {
  }

  lemma WordsJoin(a: string, b: string, c: string, d: string, e: string)
    requires IsAscii(a) && IsAscii(b) && IsAscii(c) && IsAscii(d) && IsAscii(e)
    ensures IsAscii(a + b + c + d + e)
    ensures Ascii(a + b + c + d + e) == Ascii(a) + Ascii(b) + Ascii(c) + Ascii(d) + Ascii(e)
  {
    AsciiAppend(a, b);
    AsciiAppend(a + b, c);
    AsciiAppend(a + b + c, d);
    AsciiAppend(a + b + c + d, e);
  }

  lemma InFrontOfWords(front: seq<Byte>, a: seq<Byte>, b: seq<Byte>, c: seq<Byte>, d: seq<Byte>, e: seq<Byte>)
    ensures front + a + b + c + d + e == front + (a + b + c + d + e)
  {
  }

  lemma NumbersAreAscii(n: nat)
    ensures IsAscii(Decimal.ToString(n))
  {
    Decimal.ToStringDigits(n);
  }

  /** That line in full. */
  lemma MarkerSays(omitted: nat, total: nat)
    ensures var words := MarkerWords(Decimal.ToString(omitted), Decimal.ToString(total));
            && IsAscii(words)
            && Marker(omitted, total) == [NEWLINE] + ELLIPSIS + Ascii(words) + ELLIPSIS + [NEWLINE]
  {
    var n, m := Decimal.ToString(omitted), Decimal.ToString(total);
    NumbersAreAscii(omitted);
    NumbersAreAscii(total);
    WordsJoin(" [truncated: ", n, " bytes of ", m, " omitted] ");
    BetweenDots([NEWLINE] + ELLIPSIS, TRUNCATED, Digits(omitted), BYTES_OF, Digits(total), OMITTED,
                ELLIPSIS, [NEWLINE]);
  }

  function MarkerWords(omitted: string, total: string): string {
    " [truncated: " + omitted + " bytes of " + total + " omitted] "
  }

  lemma BetweenDots(front: seq<Byte>, a: seq<Byte>, b: seq<Byte>, c: seq<Byte>, d: seq<Byte>, e: seq<Byte>,
                    dots: seq<Byte>, end: seq<Byte>)
    ensures front + a + (b + c + d) + (e + dots + end) == front + (a + b + c + d + e) + dots + end
  {
  }

  lemma ThreeParts(s: seq<Byte>, a: nat, b: nat)
    requires a <= b <= |s|
    ensures s[..a] + s[a..b] + s[b..] == s
  {
  }
}
