/** Cutting one value down to a number of encoded bytes, from both ends. */
module ResultTrim {
  import opened Utf8
  import opened JsonEscape
  import opened HeadTail

  // ---- How many raw bytes fit ----------------------------------------------------

  /** `n` bytes from `from` on is the longest stretch before `limit` that fits. */
  ghost predicate LongestForward(raw: seq<Byte>, from: nat, budget: nat, limit: nat, n: nat) {
    && from + n <= limit <= |raw|
    && Cost(raw, from, from + n) <= budget
    && (forall m: nat | from <= m <= limit && Cost(raw, from, m) <= budget :: m <= from + n)
  }

  /** A character begins at `q`, or the walk may not go below it. */
  predicate CanStartAt(raw: seq<Byte>, q: nat, limit: nat) {
    q == limit || q >= |raw| || !Continues(raw[q])
  }

  /** `n` bytes ending at `from` is the longest stretch of whole characters above
      `limit` that fits. */
  ghost predicate LongestBackward(raw: seq<Byte>, from: nat, budget: nat, limit: nat, n: nat) {
    && limit + n <= from <= |raw|
    && (n == 0 || CanStartAt(raw, from - n, limit))
    && Cost(raw, from - n, from) <= budget
    && (forall q: nat | limit <= q < from && CanStartAt(raw, q, limit) && Cost(raw, q, from) <= budget
          :: from - n <= q)
  }

  lemma CostGrows(s: seq<Byte>, i: nat, k: nat, j: nat)
    requires i <= k <= j <= |s|
    ensures Cost(s, i, k) <= Cost(s, i, j) && Cost(s, k, j) <= Cost(s, i, j)
  {
    CostAdds(s, i, k, j);
  }

  method FitRawBytes(raw: seq<Byte>, from: nat, forwards: bool, budget: nat, limit: nat) returns (n: nat)
    requires from <= |raw| && limit <= |raw| && if forwards then from <= limit else limit <= from
    ensures forwards ==> LongestForward(raw, from, budget, limit, n)
    ensures !forwards ==> LongestBackward(raw, from, budget, limit, n)
  {
    var used, pos := 0, from;
    if forwards {
      while pos < limit
        invariant from <= pos <= limit && used == Cost(raw, from, pos) <= budget
      {
        var add := Width(raw[pos]);
        if used + add > budget { break; }
        used := used + add;
        pos := pos + 1;
      }
      ForwardIsLongest(raw, from, budget, limit, pos);
      n := pos - from;
    } else {
      while pos > limit
        invariant limit <= pos <= from && used == Cost(raw, pos, from) <= budget
        invariant pos == from || CanStartAt(raw, pos, limit)
      {
        var p := pos - 1;
        while p > limit && Continues(raw[p])
          invariant limit <= p < pos && forall k | p < k < pos :: Continues(raw[k])
        {
          p := p - 1;
        }
        var add := Cost(raw, p, pos);
        CostAdds(raw, p, pos, from);
        if used + add > budget {
          BackwardIsLongest(raw, from, budget, limit, pos, p);
          return from - pos;
        }
        used := used + add;
        pos := p;
      }
      n := from - pos;
    }
  }

  lemma ForwardIsLongest(raw: seq<Byte>, from: nat, budget: nat, limit: nat, pos: nat)
    requires from <= pos <= limit <= |raw|
    requires pos < limit ==> Cost(raw, from, pos + 1) > budget
    ensures forall m: nat | from <= m <= limit && Cost(raw, from, m) <= budget :: m <= pos
  {
    forall m: nat | pos < m <= limit ensures Cost(raw, from, m) > budget {
      CostGrows(raw, from, pos + 1, m);
    }
  }

  lemma BackwardIsLongest(raw: seq<Byte>, from: nat, budget: nat, limit: nat, pos: nat, p: nat)
    requires limit <= p < pos <= from <= |raw| && Cost(raw, p, from) > budget
    requires forall k | p < k < pos :: Continues(raw[k])
    ensures forall q: nat | limit <= q < from && CanStartAt(raw, q, limit) && Cost(raw, q, from) <= budget
              :: pos <= q
  {
    forall q: nat | limit <= q < pos && CanStartAt(raw, q, limit) ensures Cost(raw, q, from) > budget {
      assert q <= p;
      CostGrows(raw, q, p, from);
    }
  }

  // ---- The cut ---------------------------------------------------------------------

  const WINDOW := 512

  predicate Printable(c: Byte) {
    c == 0x0A || c == 0x09 || (c >= 0x20 && c != 0x7F)
  }

  function PrintableCount(raw: seq<Byte>, n: nat): nat
    requires n <= |raw|
  {
    if n == 0 then 0 else PrintableCount(raw, n - 1) + if Printable(raw[n - 1]) then 1 else 0
  }

  function Probe(raw: seq<Byte>): nat {
    if |raw| < 4096 then |raw| else 4096
  }

  /** At least nine tenths of the first 4096 bytes are printable. */
  predicate IsText(raw: seq<Byte>) {
    Probe(raw) > 0 && PrintableCount(raw, Probe(raw)) * 10 >= Probe(raw) * 9
  }

  /** Bytes that text does not hold: control characters but tab and line feed, and DEL. */
  predicate IsControl(c: Byte) {
    (c < 0x20 && c != 0x09 && c != 0x0A) || c == 0x7F
  }

  function ControlCount(s: seq<Byte>): nat {
    if s == [] then 0 else ControlCount(s[..|s| - 1]) + if IsControl(s[|s| - 1]) then 1 else 0
  }

  lemma {:induction false} PrintableOrControl(raw: seq<Byte>, n: nat)
    requires n <= |raw|
    ensures PrintableCount(raw, n) + ControlCount(raw[..n]) == n
  {
    if n > 0 {
      PrintableOrControl(raw, n - 1);
      assert raw[..n][..n - 1] == raw[..n - 1];
    }
  }

  /** A value is text exactly when no more than a tenth of its first 4096 bytes are
      control characters. */
  lemma TextIff(raw: seq<Byte>)
    ensures var front := if |raw| > 4096 then raw[..4096] else raw;
            IsText(raw) <==> raw != [] && 10 * ControlCount(front) <= |front|
  {
    PrintableOrControl(raw, Probe(raw));
    if |raw| <= 4096 { assert raw[..|raw|] == raw; }
  }

  method LooksLikeText(raw: seq<Byte>) returns (yes: bool)
    ensures yes == IsText(raw)
  {
    var probe, printable := Probe(raw), 0;
    for i := 0 to probe
      invariant printable == PrintableCount(raw, i)
    {
      if Printable(raw[i]) { printable := printable + 1; }
    }
    yes := probe > 0 && printable * 10 >= probe * 9;
  }

  /** `a` is just after the last newline in the window before `cut`; it is `cut`
      when the window holds none. */
  ghost predicate SnapsBack(raw: seq<Byte>, cut: nat, a: nat) {
    && a <= cut <= |raw|
    && (forall k | a <= k < cut && cut - WINDOW <= k :: raw[k] != NEWLINE)
    && (a < cut ==> 0 < a && cut - WINDOW < a && raw[a - 1] == NEWLINE)
  }

  /** `b` is just after the first newline in the window from `cut` on; it is `cut`
      when the window holds none. */
  ghost predicate SnapsForward(raw: seq<Byte>, cut: nat, b: nat) {
    && cut <= b <= |raw|
    && (b == cut ==> forall k | cut <= k < cut + WINDOW && k < |raw| :: raw[k] != NEWLINE)
    && (b > cut ==> b <= cut + WINDOW && raw[b - 1] == NEWLINE && forall k | cut <= k < b - 1 :: raw[k] != NEWLINE)
  }

  /** In text both cuts move to line boundaries near them. */
  ghost predicate Snapped(raw: seq<Byte>, head: nat, tail: nat, a: nat, b: nat) {
    if IsText(raw) then SnapsBack(raw, head, a) && SnapsForward(raw, tail, b) else a == head && b == tail
  }

  /** The two cut positions [0, a) and [b, |raw|) for a value over budget, from
      the stretches of `h` and `t` bytes that fit. */
  ghost predicate CutAt(raw: seq<Byte>, budget: nat, h: nat, t: nat, a: nat, b: nat) {
    && LongestForward(raw, 0, budget / 2, |raw|, h)
    && LongestBackward(raw, |raw|, budget - budget / 2, h, t)
    && Snapped(raw, h, |raw| - t, a, b)
  }

  predicate Exceeds(raw: seq<Byte>, budget: nat) {
    budget > 0 && Cost(raw, 0, |raw|) > budget
  }

  method BackToNewline(raw: seq<Byte>, fit: nat) returns (headLen: nat)
    requires fit <= |raw|
    ensures SnapsBack(raw, fit, headLen)
  {
    headLen := fit;
    var back := fit;
    while back > 0 && fit - back < WINDOW
      invariant 0 <= back <= fit
      invariant forall k | back <= k < fit :: raw[k] != NEWLINE
    {
      if raw[back - 1] == NEWLINE { return back; }
      back := back - 1;
    }
  }

  method ForwardToNewline(raw: seq<Byte>, fit: nat) returns (tailStart: nat)
    requires fit <= |raw|
    ensures SnapsForward(raw, fit, tailStart)
  {
    tailStart := fit;
    var fwd := fit;
    var stop := if |raw| < fit + WINDOW then |raw| else fit + WINDOW;
    while fwd < stop
      invariant fit <= fwd <= stop
      invariant forall k | fit <= k < fwd :: raw[k] != NEWLINE
    {
      if raw[fwd] == NEWLINE { return fwd + 1; }
      fwd := fwd + 1;
    }
  }

  method SnapEnds(raw: seq<Byte>, head: nat, tail: nat) returns (headLen: nat, tailStart: nat)
    requires head <= tail <= |raw|
    ensures Snapped(raw, head, tail, headLen, tailStart)
    ensures headLen <= head && tail <= tailStart <= |raw|
  {
    headLen, tailStart := head, tail;
    var text := LooksLikeText(raw);
    if text {
      headLen := BackToNewline(raw, headLen);
      tailStart := ForwardToNewline(raw, tailStart);
    }
  }

  /** The two cut positions, and the stretches they come from. */
  method CutEnds(raw: seq<Byte>, budget: nat) returns (headLen: nat, tailStart: nat, ghost h: nat, ghost t: nat)
    ensures CutAt(raw, budget, h, t, headLen, tailStart)
    ensures headLen <= tailStart <= |raw|
  {
    headLen := FitRawBytes(raw, 0, true, budget / 2, |raw|);
    var tailLen := FitRawBytes(raw, |raw|, false, budget - budget / 2, headLen);
    h, t := headLen, tailLen;
    headLen, tailStart := SnapEnds(raw, headLen, |raw| - tailLen);
  }

  /** What a cut makes of a value over budget. */
  ghost predicate IsTwoEnded(raw: seq<Byte>, budget: nat, h: nat, t: nat, a: nat, b: nat, out: Text) {
    CutAt(raw, budget, h, t, a, b) && a <= b <= |raw| && out == BothEnds(raw[..a], b - a, |raw|, raw[b..])
  }

  /** The guards of the original against overlapping ends never fire: the tail
      walk is bounded by the head. */
  method TrimToEncodedBudget(raw: seq<Byte>, budget: nat)
    returns (out: Text, ghost h: nat, ghost t: nat, ghost a: nat, ghost b: nat)
    ensures if Exceeds(raw, budget) then IsTwoEnded(raw, budget, h, t, a, b, out) else out == Whole(raw)
  {
    h, t, a, b := 0, 0, 0, 0;
    var size := EscapedLen(raw);
    if budget == 0 || size <= budget { return Whole(raw), 0, 0, 0, 0; }
    var headLen, tailStart;
    headLen, tailStart, h, t := CutEnds(raw, budget);
    a, b := headLen, tailStart;
    out := BothEnds(raw[..headLen], tailStart - headLen, |raw|, raw[tailStart..]);
  }

  // ---- What a cut keeps --------------------------------------------------------------

  /** The ends do not overlap, and their encodings together fit the budget. */
  lemma KeptFits(raw: seq<Byte>, budget: nat, h: nat, t: nat, a: nat, b: nat)
    requires CutAt(raw, budget, h, t, a, b)
    ensures a <= b <= |raw|
    ensures Cost(raw, 0, a) <= budget / 2
    ensures Cost(raw, 0, a) + Cost(raw, b, |raw|) <= budget
  {
    PartsCost(raw, h, t, a, b);
  }

  lemma PartsCost(raw: seq<Byte>, h: nat, t: nat, a: nat, b: nat)
    requires a <= h && h + t <= |raw| && |raw| - t <= b <= |raw|
    ensures Cost(raw, 0, a) <= Cost(raw, 0, h) && Cost(raw, b, |raw|) <= Cost(raw, |raw| - t, |raw|)
  {
    CostGrows(raw, 0, a, h);
    CostGrows(raw, |raw| - t, b, |raw|);
  }

  /** The tail walk never comes down to the head: otherwise both halves would
      cover the whole value within the budget. */
  lemma WalkStopsAboveTheHead(raw: seq<Byte>, budget: nat, h: nat, t: nat)
    requires Exceeds(raw, budget)
    requires LongestForward(raw, 0, budget / 2, |raw|, h)
    requires LongestBackward(raw, |raw|, budget - budget / 2, h, t)
    ensures h < |raw| - t
  {
    if h == |raw| - t { CostAdds(raw, 0, h, |raw|); }
  }

  /** The stretches that fit are long: in valid text they use all but fourteen bytes of
      the budget (before the cuts move to line boundaries). */
  lemma StretchesUseTheBudget(raw: seq<Byte>, budget: nat, h: nat, t: nat)
    requires Exceeds(raw, budget) && Valid(raw)
    requires LongestForward(raw, 0, budget / 2, |raw|, h)
    requires LongestBackward(raw, |raw|, budget - budget / 2, h, t)
    ensures budget - 14 <= Cost(raw, 0, h) + Cost(raw, |raw| - t, |raw|) <= budget
  {
    WalkStopsAboveTheHead(raw, budget, h, t);
    HeadUsesItsHalf(raw, budget / 2, h);
    TailUsesItsHalf(raw, budget - budget / 2, h, t);
  }

  lemma HeadUsesItsHalf(raw: seq<Byte>, half: nat, h: nat)
    requires LongestForward(raw, 0, half, |raw|, h) && h < |raw|
    ensures half - 5 <= Cost(raw, 0, h) <= half
  {
    assert Cost(raw, 0, h + 1) == Cost(raw, 0, h) + Width(raw[h]);
  }

  lemma TailUsesItsHalf(raw: seq<Byte>, half: nat, h: nat, t: nat)
    requires Valid(raw) && LongestBackward(raw, |raw|, half, h, t) && h < |raw| - t
    ensures half - 8 <= Cost(raw, |raw| - t, |raw|) <= half
  {
    var r := PreviousStart(raw, h, |raw| - t);
    OneMoreIsTooLong(raw, half, h, t, r);
    CostAdds(raw, r, |raw| - t, |raw|);
    CharacterCost(raw, r, |raw| - t);
  }

  lemma OneMoreIsTooLong(raw: seq<Byte>, half: nat, h: nat, t: nat, r: nat)
    requires LongestBackward(raw, |raw|, half, h, t) && h <= r < |raw| - t && CanStartAt(raw, r, h)
    ensures Cost(raw, r, |raw|) > half
  {
  }

  /** Where the walk would stop next. */
  lemma PreviousStart(raw: seq<Byte>, h: nat, p: nat) returns (r: nat)
    requires Valid(raw) && h < p <= |raw|
    ensures h <= r < p && p - r <= 4 && CanStartAt(raw, r, h)
    ensures forall k | r < k < p :: Continues(raw[k])
  {
    var q := Floor(raw, p - 1);
    FloorNear(raw, p - 1);
    FloorIsBoundary(raw, p - 1);
    r := if q < h then h else q;
  }

  lemma CharacterCost(raw: seq<Byte>, r: nat, p: nat)
    requires r < p <= |raw| && p - r <= 4 && forall k | r < k < p :: Continues(raw[k])
    ensures Cost(raw, r, p) <= 9
  {
    CostAdds(raw, r, r + 1, p);
    assert Cost(raw, r, r + 1) == Width(raw[r]);
    ContinuationCost(raw, r + 1, p);
  }

  lemma {:induction false} ContinuationCost(raw: seq<Byte>, r: nat, p: nat)
    requires r <= p <= |raw| && forall k | r <= k < p :: Continues(raw[k])
    ensures Cost(raw, r, p) == p - r
    decreases p
  {
    if r < p { ContinuationCost(raw, r, p - 1); }
  }

  /** A cut always drops at least one byte. */
  lemma SomethingIsDropped(raw: seq<Byte>, budget: nat, h: nat, t: nat, a: nat, b: nat)
    requires Exceeds(raw, budget) && CutAt(raw, budget, h, t, a, b)
    ensures a < b <= |raw|
  {
    WalkStopsAboveTheHead(raw, budget, h, t);
  }

  /** The tail starts on a character boundary, or right after a newline. */
  lemma TailStartsACharacter(raw: seq<Byte>, budget: nat, h: nat, t: nat, a: nat, b: nat)
    requires Exceeds(raw, budget) && CutAt(raw, budget, h, t, a, b)
    ensures b <= |raw| && (AtBoundary(raw, b) || (b > 0 && raw[b - 1] == NEWLINE))
  {
    WalkStopsAboveTheHead(raw, budget, h, t);
  }

  /** So in valid UTF-8 the tail is valid. */
  lemma TailIsValid(raw: seq<Byte>, budget: nat, h: nat, t: nat, a: nat, b: nat)
    requires Exceeds(raw, budget) && CutAt(raw, budget, h, t, a, b) && Valid(raw)
    ensures b <= |raw| && Valid(raw[b..])
  {
    TailStartsACharacter(raw, budget, h, t, a, b);
    SuffixIsValid(raw, b);
  }

  lemma SuffixIsValid(s: seq<Byte>, p: nat)
    requires Valid(s) && p <= |s| && (AtBoundary(s, p) || (p > 0 && s[p - 1] == NEWLINE))
    ensures Valid(s[p..])
  {
    if p > 0 && s[p - 1] == NEWLINE { AfterNewline(s, p - 1); }
    CutIsValidAtBoundary(s, p);
  }

  /** The head is cut by bytes: in valid UTF-8 it is valid exactly when the first
      dropped byte does not continue a character. */
  lemma HeadIsValidIff(raw: seq<Byte>, budget: nat, h: nat, t: nat, a: nat, b: nat)
    requires Exceeds(raw, budget) && CutAt(raw, budget, h, t, a, b) && Valid(raw)
    ensures a < |raw| && (Valid(raw[..a]) <==> !Continues(raw[a]))
  {
    SomethingIsDropped(raw, budget, h, t, a, b);
    PrefixIsValidIff(raw, a);
  }

  lemma PrefixIsValidIff(s: seq<Byte>, p: nat)
    requires Valid(s) && p < |s|
    ensures Valid(s[..p]) <==> !Continues(s[p])
  {
    CutIsValidAtBoundary(s, p);
    if Valid(s[..p]) { PrefixIsValidAtBoundary(s, p); }
  }

  lemma {:induction false} PrefixIsValidAtBoundary(s: seq<Byte>, p: nat)
    requires Valid(s) && p <= |s| && Valid(s[..p])
    ensures AtBoundary(s, p)
    decreases |s|
  {
    if s == [] {
    } else if p == 0 {
      CharLenByLeadOfValid(s);
    } else {
      var n := CharLen(s);
      PrefixCharLen(s, p);
      assert s[..p][n..] == s[n..][..p - n];
      PrefixIsValidAtBoundary(s[n..], p - n);
    }
  }

  lemma PrefixCharLen(s: seq<Byte>, p: nat)
    requires 0 < p <= |s| && CharLen(s[..p]) > 0
    ensures CharLen(s) == CharLen(s[..p])
  {
  }

  /** A snapped head is always cut at a boundary. */
  lemma SnappedHeadIsValid(raw: seq<Byte>, budget: nat, h: nat, t: nat, a: nat, b: nat)
    requires Exceeds(raw, budget) && CutAt(raw, budget, h, t, a, b) && Valid(raw) && a < h
    ensures Valid(raw[..a])
  {
    AfterNewline(raw, a - 1);
    CutIsValidAtBoundary(raw, a);
  }

  /** Two characters of two bytes and a budget of three: the head is the first
      byte of a character. */
  lemma HeadCanSplitACharacter()
    ensures var raw := [0xC3, 0xA9, 0xC3, 0xA9];
            Valid(raw) && Exceeds(raw, 3) && CutAt(raw, 3, 1, 2, 1, 2) && !Valid(raw[..1])
  {
    var raw: seq<Byte> := [0xC3, 0xA9, 0xC3, 0xA9];
    assert raw[2..] == [0xC3, 0xA9] && raw[2..][2..] == [];
    assert Cost(raw, 0, 1) == 1 && Cost(raw, 0, 2) == 2 && Cost(raw, 0, 3) == 3 && Cost(raw, 0, 4) == 4;
    assert Cost(raw, 3, 4) == 1 && Cost(raw, 2, 4) == 2 && Cost(raw, 1, 4) == 3;
  }

  /** Text whose kept tail has its only newline at the very end loses the whole
      tail to the snap, although both ends are meant to survive. */
  lemma TailVanishesIff(raw: seq<Byte>, budget: nat, h: nat, t: nat, a: nat, b: nat)
    requires Exceeds(raw, budget) && CutAt(raw, budget, h, t, a, b) && IsText(raw) && t > 0
    ensures b == |raw| <==>
            && t <= WINDOW && raw[|raw| - 1] == NEWLINE
            && forall k | |raw| - t <= k < |raw| - 1 :: raw[k] != NEWLINE
  {
  }

  /** Four letters and a newline in four bytes: the newline is all of the tail that
      fits, and the snap drops it. */
  lemma TailCanVanish()
    ensures var raw := [0x61, 0x61, 0x61, 0x61, 0x0A];
            Exceeds(raw, 4) && IsText(raw) && CutAt(raw, 4, 2, 1, 2, |raw|)
  {
    var raw: seq<Byte> := [0x61, 0x61, 0x61, 0x61, 0x0A];
    assert Cost(raw, 0, 1) == 1 && Cost(raw, 0, 2) == 2 && Cost(raw, 0, 3) == 3 && Cost(raw, 0, 4) == 4;
    assert Cost(raw, 4, 4) == 0 && Cost(raw, 3, 3) == 0 && Cost(raw, 2, 2) == 0;
    assert Cost(raw, 4, 5) == 2 && Cost(raw, 3, 4) == 1 && Cost(raw, 3, 5) == 3;
    assert Cost(raw, 2, 4) == 2 && Cost(raw, 2, 5) == 4 && Cost(raw, 0, 5) == 6;
    AllPrintable(raw, 5);
  }

  lemma {:induction false} AllPrintable(raw: seq<Byte>, n: nat)
    requires n <= |raw| && forall i | 0 <= i < n :: Printable(raw[i])
    ensures PrintableCount(raw, n) == n
  {
    if n > 0 { AllPrintable(raw, n - 1); }
  }
}
