/** The lines of a text file as the `read` tool shows them. */
module FileLines {
  import opened Requests
  import opened Utf8
  import opened HeadTail

  const MAX_BYTES := 50 * 1024
  const RESERVE := 256
  /** Longest stored part of one physical line: the 1 MiB buffer less its NUL. */
  const LINE_CAP := 1024 * 1024 - 1

  // ---- Cutting one line -----------------------------------------------------------

  function LeadLen(c: Byte): nat {
    if LeadsTwo(c) then 2 else if LeadsThree(c) then 3 else if LeadsFour(c) then 4 else 1
  }

  /** Where the walk over lead bytes from `i` stops. */
  function SafeEnd(s: seq<Byte>, i: nat, max: nat): (r: nat)
    requires i <= max < |s|
    ensures i <= r <= max
    decreases max - i
  {
    if i + LeadLen(s[i]) <= max then SafeEnd(s, i + LeadLen(s[i]), max) else i
  }

  function SafeTruncate(s: seq<Byte>, max: nat): (r: seq<Byte>)
    ensures |r| <= max + 3
  {
    if |s| <= max then s else s[..SafeEnd(s, 0, max)] + ELLIPSIS
  }

  method Utf8SafeTruncate(s: seq<Byte>, maxBytes: nat) returns (r: seq<Byte>)
    ensures r == SafeTruncate(s, maxBytes)
  {
    if |s| <= maxBytes { return s; }
    var i, lastValid := 0, 0;
    while i < |s|
      invariant lastValid == i <= maxBytes && SafeEnd(s, i, maxBytes) == SafeEnd(s, 0, maxBytes)
    {
      var c := s[i];
      var clen := if c < 0x80 then 1 else if LeadsTwo(c) then 2 else if LeadsThree(c) then 3
                  else if LeadsFour(c) then 4 else 1;
      if i + clen > maxBytes { break; }
      lastValid := i + clen;
      i := i + clen;
    }
    r := s[..lastValid] + ELLIPSIS;
  }

  lemma {:induction false} FloorIs(s: seq<Byte>, pos: nat, p: nat)
    requires p <= pos < |s| && !Continues(s[p]) && forall k | p < k <= pos :: Continues(s[k])
    ensures Floor(s, pos) == p
  {
    if p < pos { FloorIs(s, pos - 1, p); }
  }

  /** In valid text the walk finds the last boundary that fits. */
  lemma SafeEndIsFloor(s: seq<Byte>, i: nat, max: nat)
    requires i <= max < |s| && Valid(s[i..])
    ensures SafeEnd(s, i, max) == Floor(s, max)
  {
    var starts := set j | 0 <= j <= |s| && Valid(s[j..]);
    forall j | j in starts && j < |s| ensures BeginsAt(s, starts, j) { CharacterAt(s, j); }
    WalkIsFloor(s, starts, i, max);
  }

  /** A character begins at `j`, and the next one where its lead byte says. */
  predicate BeginsAt(s: seq<Byte>, starts: set<nat>, j: nat)
    requires j < |s|
  {
    && !Continues(s[j]) && j + LeadLen(s[j]) in starts
    && j + LeadLen(s[j]) <= |s| && forall k | j < k < j + LeadLen(s[j]) :: Continues(s[k])
  }

  lemma {:induction false} WalkIsFloor(s: seq<Byte>, starts: set<nat>, i: nat, max: nat)
    requires i <= max < |s| && i in starts && forall j | j in starts && j < |s| :: BeginsAt(s, starts, j)
    ensures SafeEnd(s, i, max) == Floor(s, max)
    decreases max - i
  {
    assert BeginsAt(s, starts, i);
    SafeEndStep(s, i, max);
    if i + LeadLen(s[i]) <= max { WalkIsFloor(s, starts, i + LeadLen(s[i]), max); } else { FloorIs(s, max, i); }
  }

  lemma SafeEndStep(s: seq<Byte>, i: nat, max: nat)
    requires i <= max < |s|
    ensures SafeEnd(s, i, max) == if i + LeadLen(s[i]) <= max then SafeEnd(s, i + LeadLen(s[i]), max) else i
  {
  }

  lemma CharacterAt(s: seq<Byte>, i: nat)
    requires i < |s| && Valid(s[i..])
    ensures var n := LeadLen(s[i]);
            && !Continues(s[i]) && i + n <= |s| && Valid(s[i + n..])
            && forall k | i < k < i + n :: Continues(s[k])
  {
    var t := s[i..];
    LeadLenOfChar(t);
    CharLenByLeadOfValid(t);
    assert t[CharLen(t)..] == s[i + CharLen(t)..];
    forall k | i < k < i + CharLen(t) ensures Continues(s[k]) { assert s[k] == t[k - i]; }
  }

  lemma LeadLenOfChar(t: seq<Byte>)
    requires t != [] && CharLen(t) > 0
    ensures LeadLen(t[0]) == CharLen(t)
  {
  }

  lemma {:induction false} SafeEndOfPrefix(s: seq<Byte>, t: seq<Byte>, i: nat, max: nat)
    requires s <= t && i <= max < |s|
    ensures SafeEnd(s, i, max) == SafeEnd(t, i, max)
    decreases max - i
  {
    if i + LeadLen(s[i]) <= max { SafeEndOfPrefix(s, t, i + LeadLen(s[i]), max); }
  }

  // ---- Lines of the file -------------------------------------------------------------

  /** What a line takes of the byte budget and how it appears in a page: whole, or
      its beginning when it alone is over the budget. */
  datatype Line = Line(size: nat, shown: seq<Byte>)

  predicate Fits(l: Line) { l.size <= MAX_BYTES }

  predicate Sound(l: Line) {
    |l.shown| <= MAX_BYTES && (Fits(l) ==> |l.shown| == l.size)
  }

  /** Line `stored` as the reader delivers it. */
  function LineOf(stored: seq<Byte>): Line {
    Line(|stored| + 1,
         (if |stored| + 1 > MAX_BYTES then SafeTruncate(stored, MAX_BYTES - RESERVE) else stored) + [NEWLINE])
  }

  lemma LineOfIsSound(stored: seq<Byte>)
    ensures Sound(LineOf(stored))
  {
  }

  /** A line over the budget of a page shows its beginning, up to the reserve and the
      last character that would be cut. */
  lemma OverlongLineShows(stored: seq<Byte>)
    requires Valid(stored) && !Fits(LineOf(stored))
    ensures var shown, room := LineOf(stored).shown, MAX_BYTES - RESERVE;
            exists e :: room - 3 <= e <= room && shown == stored[..e] + ELLIPSIS + [NEWLINE]
  {
    var room := MAX_BYTES - RESERVE;
    assert stored[0..] == stored;
    SafeEndIsFloor(stored, 0, room);
    FloorNear(stored, room);
    assert LineOf(stored).shown == stored[..SafeEnd(stored, 0, room)] + ELLIPSIS + [NEWLINE];
  }

  /** End of the line that starts at `i`. */
  function LineEnd(s: seq<Byte>, i: nat): (e: nat)
    requires i <= |s|
    ensures i <= e <= |s| && (e < |s| ==> s[e] == NEWLINE) && forall k | i <= k < e :: s[k] != NEWLINE
  {
    match FirstNewline(s, i)
    case Some(n) => n
    case None => |s|
  }

  function Clip(line: seq<Byte>): seq<Byte> {
    if |line| > LINE_CAP then line[..LINE_CAP] else line
  }

  function Stored(s: seq<Byte>, i: nat): seq<Byte>
    requires i <= |s|
  {
    Clip(s[i..LineEnd(s, i)])
  }

  /** The lines from position `i` on; a newline ends a line and starts none. */
  function Lines(s: seq<Byte>, i: nat): seq<Line>
    decreases |s| - i
  {
    if i >= |s| then [] else [LineOf(Stored(s, i))] + Lines(s, LineEnd(s, i) + 1)
  }

  /** The line read at `pos`, which the reader leaves at `next`. */
  ghost predicate ReadAt(s: seq<Byte>, pos: nat, line: seq<Byte>, next: nat) {
    && pos < |s| && line == Stored(s, pos)
    && next == if LineEnd(s, pos) < |s| then LineEnd(s, pos) + 1 else |s|
  }

  /** getline into a buffer, then the rest of an overlong line is skipped. */
  method ReadLineCapped(s: seq<Byte>, pos: nat) returns (ok: bool, line: seq<Byte>, clipped: bool, next: nat)
    requires pos <= |s|
    ensures ok <==> pos < |s|
    ensures ok ==> ReadAt(s, pos, line, next) && pos < next <= |s|
    ensures clipped <==> |s[pos..LineEnd(s, pos)]| > LINE_CAP
  {
    line, clipped, next := [], false, pos;
    while next < |s| && s[next] != NEWLINE && |line| < LINE_CAP
      invariant pos <= next <= LineEnd(s, pos) && line == s[pos..next] && |line| <= LINE_CAP
    {
      line := line + [s[next]];
      next := next + 1;
    }
    var atEof := next == |s|;
    if next < |s| {
      if s[next] != NEWLINE {
        clipped := true;
        while next < |s| && s[next] != NEWLINE
          invariant pos + LINE_CAP <= next <= LineEnd(s, pos)
          invariant clipped ==> |s[pos..LineEnd(s, pos)]| > LINE_CAP
        {
          next := next + 1;
        }
      }
      if next < |s| { next := next + 1; }
    }
    ok := line != [] || !atEof;
  }

  /** Position `pos` of the file is where line number `lineNo` + 1 begins. */
  ghost predicate AtLine(s: seq<Byte>, lineNo: nat, pos: nat) {
    pos <= |s| && lineNo <= |Lines(s, 0)| && Lines(s, pos) == Lines(s, 0)[lineNo..]
  }

  lemma AdvanceLine(s: seq<Byte>, lineNo: nat, pos: nat, line: seq<Byte>, next: nat)
    requires AtLine(s, lineNo, pos) && ReadAt(s, pos, line, next)
    ensures lineNo < |Lines(s, 0)| && Lines(s, 0)[lineNo] == LineOf(line)
    ensures AtLine(s, lineNo + 1, next)
  {
    var all := Lines(s, 0);
    assert all[lineNo..][1..] == all[lineNo + 1..];
    assert Lines(s, next) == Lines(s, LineEnd(s, pos) + 1);
  }

  lemma AtEnd(s: seq<Byte>, lineNo: nat)
    requires AtLine(s, lineNo, |s|)
    ensures lineNo == |Lines(s, 0)|
  {
  }

  method CountRest(s: seq<Byte>, lineNo: nat, pos: nat) returns (total: nat)
    requires AtLine(s, lineNo, pos)
    ensures total == |Lines(s, 0)|
  {
    total := lineNo;
    var p := pos;
    while true
      invariant AtLine(s, total, p)
      decreases |s| - p
    {
      var ok, line, clipped, next := ReadLineCapped(s, p);
      if !ok { AtEnd(s, total); break; }
      AdvanceLine(s, total, p, line, next);
      total, p := total + 1, next;
    }
  }

  lemma {:induction false} LinesAreSound(s: seq<Byte>, i: nat)
    ensures forall k | 0 <= k < |Lines(s, i)| :: Sound(Lines(s, i)[k])
    decreases |s| - i
  {
    if i < |s| {
      LinesAreSound(s, LineEnd(s, i) + 1);
      LineOfIsSound(Stored(s, i));
    }
  }

  // ---- The lines and the file ------------------------------------------------------------

  function ShownAll(lines: seq<Line>): seq<Byte> {
    if lines == [] then [] else lines[0].shown + ShownAll(lines[1..])
  }

  function FinalNewline(s: seq<Byte>): seq<Byte>
    requires s != []
  {
    if s[|s| - 1] == NEWLINE then [] else [NEWLINE]
  }

  ghost predicate AllFit(lines: seq<Line>) {
    forall k | 0 <= k < |lines| :: Fits(lines[k])
  }

  lemma ShownCons(x: Line, rest: seq<Line>)
    ensures ShownAll([x] + rest) == x.shown + ShownAll(rest)
    ensures AllFit([x] + rest) ==> Fits(x) && AllFit(rest)
  {
    var all := [x] + rest;
    assert all[0] == x && all[1..] == rest;
    if AllFit(all) {
      forall k | 0 <= k < |rest| ensures Fits(rest[k]) { assert all[k + 1] == rest[k]; }
    }
  }

  lemma FittingLineIsWhole(s: seq<Byte>, i: nat)
    requires i <= |s| && Fits(LineOf(Stored(s, i)))
    ensures LineOf(Stored(s, i)).shown == s[i..LineEnd(s, i)] + [NEWLINE]
  {
  }

  /** Lines within the budget put the file together again. */
  lemma {:induction false} LinesRebuild(s: seq<Byte>, i: nat)
    requires i < |s| && AllFit(Lines(s, i))
    ensures ShownAll(Lines(s, i)) == s[i..] + FinalNewline(s)
    decreases |s| - i
  {
    var e := LineEnd(s, i);
    FirstLine(s, i);
    if e + 1 < |s| { LinesRebuild(s, e + 1); }
    Glue(s, i, e, ShownAll(Lines(s, e + 1)));
  }

  lemma FirstLine(s: seq<Byte>, i: nat)
    requires i < |s| && AllFit(Lines(s, i))
    ensures var e := LineEnd(s, i);
            && ShownAll(Lines(s, i)) == (s[i..e] + [NEWLINE]) + ShownAll(Lines(s, e + 1))
            && AllFit(Lines(s, e + 1))
  {
    ShownCons(LineOf(Stored(s, i)), Lines(s, LineEnd(s, i) + 1));
    FittingLineIsWhole(s, i);
  }

  lemma Glue(s: seq<Byte>, i: nat, e: nat, shown: seq<Byte>)
    requires i < |s| && e == LineEnd(s, i)
    requires shown == if e + 1 < |s| then s[e + 1..] + FinalNewline(s) else []
    ensures (s[i..e] + [NEWLINE]) + shown == s[i..] + FinalNewline(s)
  {
    if e + 1 < |s| {
      assert (s[i..e] + [NEWLINE]) + s[e + 1..] == s[i..];
      Assoc<Byte>(s[i..e] + [NEWLINE], s[e + 1..], FinalNewline(s));
    } else if e < |s| {
      assert s[i..e] + [NEWLINE] == s[i..];
    } else {
      assert s[i..e] == s[i..] && s[|s| - 1] != NEWLINE;
    }
  }

  // ---- Encoding ----------------------------------------------------------------------------

  lemma PrefixIsValid(s: seq<Byte>, p: nat)
    requires Valid(s) && p <= |s| && AtBoundary(s, p)
    ensures Valid(s[..p])
  {
    CutIsValidAtBoundary(s, p);
  }

  lemma SliceIsValid(s: seq<Byte>, i: nat, e: nat)
    requires Valid(s) && i <= e <= |s| && AtBoundary(s, i) && AtBoundary(s, e)
    ensures Valid(s[i..e])
  {
    PrefixIsValid(s, e);
    CutIsValidAtBoundary(s[..e], i);
    assert s[..e][i..] == s[i..e];
  }

  ghost predicate AllValid(lines: seq<Line>) {
    forall k | 0 <= k < |lines| :: Valid(lines[k].shown)
  }

  lemma AllValidCons(x: Line, rest: seq<Line>)
    requires Valid(x.shown) && AllValid(rest)
    ensures AllValid([x] + rest)
  {
  }

  lemma {:induction false} LinesAreValid(s: seq<Byte>, i: nat)
    requires Valid(s) && i <= |s| && AtBoundary(s, i)
    ensures AllValid(Lines(s, i))
    decreases |s| - i
  {
    if i < |s| {
      var next := LineEnd(s, i) + 1;
      LineIsValid(s, i);
      if next <= |s| {
        AfterNewline(s, next - 1);
        LinesAreValid(s, next);
      }
      MoreLinesAreValid(s, i, next);
    }
  }

  lemma MoreLinesAreValid(s: seq<Byte>, i: nat, next: nat)
    requires i < |s| && next == LineEnd(s, i) + 1
    requires Valid(LineOf(Stored(s, i)).shown) && (next <= |s| ==> AllValid(Lines(s, next)))
    ensures AllValid(Lines(s, i))
  {
    AllValidCons(LineOf(Stored(s, i)), Lines(s, next));
  }

  lemma LineIsValid(s: seq<Byte>, i: nat)
    requires Valid(s) && i <= |s| && AtBoundary(s, i)
    ensures Valid(LineOf(Stored(s, i)).shown)
  {
    var e := LineEnd(s, i);
    SliceIsValid(s, i, e);
    ShownIsValid(s[i..e]);
  }

  lemma ShownIsValid(line: seq<Byte>)
    requires Valid(line)
    ensures Valid(LineOf(Clip(line)).shown)
  {
    var stored := Clip(line);
    CharIsValid([NEWLINE]);
    if |stored| + 1 > MAX_BYTES {
      TruncatedIsValid(line, stored, MAX_BYTES - RESERVE);
      ValidConcat(SafeTruncate(stored, MAX_BYTES - RESERVE), [NEWLINE]);
    } else {
      ValidConcat(line, [NEWLINE]);
    }
  }

  /** Even where the reader clipped the line inside a character, the shown
      beginning is valid. */
  lemma TruncatedIsValid(line: seq<Byte>, stored: seq<Byte>, max: nat)
    requires Valid(line) && stored <= line && max < |stored|
    ensures Valid(SafeTruncate(stored, max))
  {
    var r := SafeEnd(stored, 0, max);
    SafeEndOfPrefix(stored, line, 0, max);
    assert line[0..] == line;
    SafeEndIsFloor(line, 0, max);
    FloorIsBoundary(line, max);
    CutIsValidAtBoundary(line, r);
    assert stored[..r] == line[..r];
    CharIsValid(ELLIPSIS);
    ValidConcat(line[..r], ELLIPSIS);
  }
}
