/** The paged `read` of a text file. */
module ReadPaging {
  import opened Requests
  import opened Utf8
  import opened FileLines
  import opened HeadTail

  const DEFAULT_LINES := 2000

  datatype Page = Page(text: seq<Byte>, count: nat, truncated: bool, capped: bool, total: nat, next: Option<nat>)

  datatype Result = NotText | Read(page: Page)

  // ---- What a page holds -------------------------------------------------------------

  /** Lines from index `i` on that are taken whole, with `used` bytes spent. */
  function Taken(lines: seq<Line>, i: nat, limit: nat, used: nat): (n: nat)
    ensures n <= limit && (i <= |lines| ==> i + n <= |lines|)
    decreases limit
  {
    if i >= |lines| || limit == 0 || used + lines[i].size > MAX_BYTES then 0
    else 1 + Taken(lines, i + 1, limit - 1, used + lines[i].size)
  }

  function ShownLines(lines: seq<Line>, i: nat, j: nat): seq<Byte>
    requires i <= j <= |lines|
    decreases j - i
  {
    if i == j then [] else lines[i].shown + ShownLines(lines, i + 1, j)
  }

  function PageOf(lines: seq<Line>, start: nat, limit: nat): Page
    requires start >= 1
  {
    var i := start - 1;
    if i >= |lines| then Page([], 0, false, false, |lines|, None)
    else
      var capped := limit > 0 && !Fits(lines[i]);
      var n := if capped then 1 else Taken(lines, i, limit, 0);
      Page(ShownLines(lines, i, i + n), n, capped || i + n < |lines|, capped, |lines|,
           if i + n < |lines| then Some(start + n) else None)
  }

  // ---- The collecting loop -----------------------------------------------------------

  function Ended(text: seq<Byte>, collected: nat, capped: bool, start: nat, total: nat): Page {
    Page(text, collected, true, capped, total, if start + collected <= total then Some(start + collected) else None)
  }

  /** Index of the line the loop stops at, seen from index `k`. */
  function StopAt(lines: seq<Line>, k: nat, start: nat, limit: nat, collected: nat, used: nat): nat
    decreases |lines| - k
  {
    if k >= |lines| then |lines|
    else if k + 1 < start then StopAt(lines, k + 1, start, limit, collected, used)
    else if collected >= limit || used + lines[k].size > MAX_BYTES then k
    else StopAt(lines, k + 1, start, limit, collected + 1, used + lines[k].size)
  }

  /** The state of the loop before line index `k`. */
  ghost predicate Taking(lines: seq<Line>, start: nat, limit: nat, k: nat,
                         text: seq<Byte>, collected: nat, used: nat) {
    && k <= |lines| && 1 <= start
    && collected == (if k < start then 0 else k - (start - 1)) && (collected == 0 ==> used == 0)
    && (if k + 1 < start then text == [] else text == ShownLines(lines, start - 1, k))
    && StopAt(lines, k, start, limit, collected, used) == StopAt(lines, 0, start, limit, 0, 0)
  }

  lemma SkipLine(lines: seq<Line>, start: nat, limit: nat, k: nat, text: seq<Byte>, collected: nat, used: nat)
    requires Taking(lines, start, limit, k, text, collected, used) && k < |lines| && k + 1 < start
    ensures Taking(lines, start, limit, k + 1, text, collected, used)
  {
  }

  lemma TakeLine(lines: seq<Line>, start: nat, limit: nat, k: nat, text: seq<Byte>, collected: nat, used: nat,
                 line: seq<Byte>)
    requires Taking(lines, start, limit, k, text, collected, used) && k < |lines| && lines[k] == LineOf(line)
    requires start <= k + 1 && collected < limit && used + |line| + 1 <= MAX_BYTES
    ensures Taking(lines, start, limit, k + 1, text + (line + [NEWLINE]), collected + 1, used + |line| + 1)
  {
    ShownAppend(lines, start - 1, k);
  }

  lemma StopAtEof(lines: seq<Line>, start: nat, limit: nat, text: seq<Byte>, collected: nat, used: nat)
    requires Taking(lines, start, limit, |lines|, text, collected, used) && limit >= 1
    ensures PageOf(lines, start, limit) == Page(text, collected, false, false, |lines|, None)
  {
    PageAtStop(lines, start, limit);
  }

  lemma StopFull(lines: seq<Line>, start: nat, limit: nat, k: nat, text: seq<Byte>, collected: nat, used: nat)
    requires Taking(lines, start, limit, k, text, collected, used) && k < |lines| && limit >= 1
    requires start <= k + 1 && collected > 0 && (collected >= limit || used + lines[k].size > MAX_BYTES)
    ensures PageOf(lines, start, limit) == Ended(text, collected, false, start, |lines|)
  {
    PageAtStop(lines, start, limit);
  }

  lemma StopCapped(lines: seq<Line>, start: nat, limit: nat, k: nat, text: seq<Byte>, used: nat)
    requires Taking(lines, start, limit, k, text, 0, used) && k < |lines| && limit >= 1
    requires start <= k + 1 && used + lines[k].size > MAX_BYTES
    ensures PageOf(lines, start, limit) == Ended(text + lines[k].shown, 1, true, start, |lines|)
  {
    PageAtStop(lines, start, limit);
    assert text + lines[k].shown == lines[k].shown;
  }

  /** What the loop does with one line. */
  method ConsiderLine(ghost lines: seq<Line>, start: nat, maxLines: nat, k: nat, line: seq<Byte>,
                      text: seq<Byte>, collected: nat, used: nat)
    returns (text': seq<Byte>, collected': nat, used': nat, truncated: bool, capped: bool)
    requires Taking(lines, start, maxLines, k, text, collected, used) && maxLines >= 1
    requires k < |lines| && lines[k] == LineOf(line)
    ensures !truncated ==> !capped && Taking(lines, start, maxLines, k + 1, text', collected', used')
    ensures truncated ==> PageOf(lines, start, maxLines) == Ended(text', collected', capped, start, |lines|)
  {
    text', collected', used', truncated, capped := text, collected, used, false, false;
    if k + 1 < start {
      SkipLine(lines, start, maxLines, k, text, collected, used);
    } else if collected >= maxLines {
      StopFull(lines, start, maxLines, k, text, collected, used);
      truncated := true;
    } else if used + |line| + 1 > MAX_BYTES {
      truncated := true;
      if collected == 0 {
        StopCapped(lines, start, maxLines, k, text, used);
        var shown := Utf8SafeTruncate(line, MAX_BYTES - RESERVE);
        text' := text + (shown + [NEWLINE]);
        collected', capped := 1, true;
      } else {
        StopFull(lines, start, maxLines, k, text, collected, used);
      }
    } else {
      TakeLine(lines, start, maxLines, k, text, collected, used, line);
      text' := text + (line + [NEWLINE]);
      used', collected' := used + |line| + 1, collected + 1;
    }
  }

  /** Takes lines until a limit or the end of the file stops it; `lineNo` lines
      have been read by then. */
  method CollectLines(s: seq<Byte>, start: nat, maxLines: nat)
    returns (lineNo: nat, pos: nat, text: seq<Byte>, collected: nat, truncated: bool, capped: bool)
    requires start >= 1 && maxLines >= 1
    ensures AtLine(s, lineNo, pos)
    ensures truncated ==> PageOf(Lines(s, 0), start, maxLines) == Ended(text, collected, capped, start, |Lines(s, 0)|)
    ensures !truncated ==> PageOf(Lines(s, 0), start, maxLines) == Page(text, collected, false, false, lineNo, None)
    ensures !truncated ==> !capped
  {
    ghost var lines := Lines(s, 0);
    var used: nat := 0;
    lineNo, pos, text, collected, truncated, capped := 0, 0, [], 0, false, false;
    while !truncated
      invariant AtLine(s, lineNo, pos) && (!truncated ==> !capped)
      invariant !truncated ==> Taking(lines, start, maxLines, lineNo, text, collected, used)
      invariant truncated ==> PageOf(lines, start, maxLines) == Ended(text, collected, capped, start, |lines|)
      decreases |s| - pos
    {
      var ok, line, clipped, next := ReadLineCapped(s, pos);
      if !ok {
        AtEnd(s, lineNo);
        StopAtEof(lines, start, maxLines, text, collected, used);
        return;
      }
      AdvanceLine(s, lineNo, pos, line, next);
      text, collected, used, truncated, capped :=
        ConsiderLine(lines, start, maxLines, lineNo, line, text, collected, used);
      pos, lineNo := next, lineNo + 1;
    }
  }

  method ReadPage(s: seq<Byte>, start: nat, maxLines: nat) returns (p: Page)
    requires start >= 1 && maxLines >= 1
    ensures p == PageOf(Lines(s, 0), start, maxLines)
  {
    var lineNo, pos, text, collected, truncated, capped := CollectLines(s, start, maxLines);
    var total := lineNo;
    if truncated { total := CountRest(s, lineNo, pos); }
    var hasNext := truncated && start + collected <= total;
    p := Page(text, collected, truncated, capped, total, if hasNext then Some(start + collected) else None);
  }

  method ToolRead(s: seq<Byte>, offset: Option<nat>, limit: Option<nat>) returns (r: Result)
    requires (offset.Some? ==> offset.value >= 1) && (limit.Some? ==> limit.value >= 1)
    ensures var p := PageOf(Lines(s, 0), if offset.Some? then offset.value else 1,
                            if limit.Some? then limit.value else DEFAULT_LINES);
            r == if WellFormed(p.text) then Read(p) else NotText
  {
    var start := if offset.Some? then offset.value else 1;
    var maxLines := if limit.Some? then limit.value else DEFAULT_LINES;
    var page := ReadPage(s, start, maxLines);
    var ok := IsValidUtf8(page.text);
    r := if ok then Read(page) else NotText;
  }

  /** Lines before the start are passed over. */
  lemma {:induction false} StopSkips(lines: seq<Line>, k: nat, start: nat, limit: nat)
    requires k < start
    ensures StopAt(lines, k, start, limit, 0, 0)
            == if start - 1 >= |lines| then |lines| else StopAt(lines, start - 1, start, limit, 0, 0)
    decreases start - k
  {
    if k + 1 < start && k < |lines| { StopSkips(lines, k + 1, start, limit); }
  }

  /** From the start on, lines are taken as long as both limits allow. */
  lemma {:induction false} StopTakes(lines: seq<Line>, k: nat, start: nat, limit: nat, collected: nat, used: nat)
    requires start <= k + 1 && k <= |lines| && collected <= limit
    ensures StopAt(lines, k, start, limit, collected, used) == k + Taken(lines, k, limit - collected, used)
    decreases |lines| - k
  {
    if k < |lines| && collected < limit && used + lines[k].size <= MAX_BYTES {
      StopTakes(lines, k + 1, start, limit, collected + 1, used + lines[k].size);
    }
  }

  /** The page, from where the loop stops. */
  lemma PageAtStop(lines: seq<Line>, start: nat, limit: nat)
    requires start >= 1 && limit >= 1
    ensures var e := StopAt(lines, 0, start, limit, 0, 0);
            var i := start - 1;
            && (i >= |lines| ==>
                  e == |lines| && PageOf(lines, start, limit) == Page([], 0, false, false, |lines|, None))
            && (i < |lines| ==> i <= e <= |lines| && (e == i <==> !Fits(lines[i])))
            && (i < |lines| && e == i ==>
                  PageOf(lines, start, limit) == Ended(lines[i].shown, 1, true, start, |lines|))
            && (i < |lines| && e == |lines| ==>
                  PageOf(lines, start, limit) == Page(ShownLines(lines, i, e), e - i, false, false, |lines|, None))
            && (i < e < |lines| ==>
                  PageOf(lines, start, limit) == Ended(ShownLines(lines, i, e), e - i, false, start, |lines|))
  {
    StopSkips(lines, 0, start, limit);
    var i := start - 1;
    if i < |lines| {
      StopTakes(lines, i, start, limit, 0, 0);
      if !Fits(lines[i]) {
        assert ShownLines(lines, i + 1, i + 1) == [];
        assert lines[i].shown + [] == lines[i].shown;
      }
    }
  }

  lemma ShownAppend(lines: seq<Line>, i: nat, k: nat)
    requires i <= k < |lines|
    ensures ShownLines(lines, i, k + 1) == ShownLines(lines, i, k) + lines[k].shown
  {
    ShownAdds(lines, i, k, k + 1);
    assert ShownLines(lines, k + 1, k + 1) == [];
    assert lines[k].shown + [] == lines[k].shown;
  }

  // ---- Following next_offset -----------------------------------------------------------

  lemma {:induction false} TakenFits(lines: seq<Line>, i: nat, limit: nat, used: nat)
    requires i <= |lines| && used <= MAX_BYTES && forall k | 0 <= k < |lines| :: Sound(lines[k])
    ensures used + |ShownLines(lines, i, i + Taken(lines, i, limit, used))| <= MAX_BYTES
    decreases limit
  {
    if i < |lines| && limit > 0 && used + lines[i].size <= MAX_BYTES {
      TakenFits(lines, i + 1, limit - 1, used + lines[i].size);
      assert Sound(lines[i]);
    }
  }

  lemma {:induction false} ShownAdds(lines: seq<Line>, i: nat, k: nat, j: nat)
    requires i <= k <= j <= |lines|
    ensures ShownLines(lines, i, j) == ShownLines(lines, i, k) + ShownLines(lines, k, j)
    decreases k - i
  {
    if i == k {
      assert [] + ShownLines(lines, k, j) == ShownLines(lines, k, j);
    } else {
      ShownAdds(lines, i + 1, k, j);
      Assoc<Byte>(lines[i].shown, ShownLines(lines, i + 1, k), ShownLines(lines, k, j));
    }
  }

  /** A page that starts inside the file holds at least one line, at most `limit`,
      and names the next line exactly when there is one. */
  lemma PageMakesProgress(lines: seq<Line>, start: nat, limit: nat)
    requires 1 <= start <= |lines| && limit >= 1
    ensures var p := PageOf(lines, start, limit);
            && 1 <= p.count <= limit && start - 1 + p.count <= |lines|
            && p.text == ShownLines(lines, start - 1, start - 1 + p.count)
            && (p.next.Some? <==> start + p.count <= |lines|)
            && (p.next.Some? ==> p.truncated && p.next.value == start + p.count)
  {
  }

  function Bytes(lines: seq<Line>, i: nat, j: nat): nat
    requires i <= j <= |lines|
    decreases j - i
  {
    if i == j then 0 else lines[i].size + Bytes(lines, i + 1, j)
  }

  lemma {:induction false} TakenIsLongest(lines: seq<Line>, i: nat, limit: nat, used: nat)
    requires i <= |lines| && used <= MAX_BYTES
    ensures var n := Taken(lines, i, limit, used);
            && used + Bytes(lines, i, i + n) <= MAX_BYTES
            && (n == limit || i + n == |lines| || used + Bytes(lines, i, i + n) + lines[i + n].size > MAX_BYTES)
    decreases limit
  {
    if i < |lines| && limit > 0 && used + lines[i].size <= MAX_BYTES {
      TakenIsLongest(lines, i + 1, limit - 1, used + lines[i].size);
    }
  }

  /** A page is as full as it can be: it stops at the end of the file, at the number of
      lines asked for, or before a line that would overrun the byte budget.  A first line
      that overruns it alone is shown clipped, and nothing behind it. */
  lemma PageIsFull(lines: seq<Line>, start: nat, limit: nat)
    requires 1 <= start <= |lines| && limit >= 1
    ensures var p, i := PageOf(lines, start, limit), start - 1;
            && p.total == |lines| && (p.capped <==> !Fits(lines[i])) && (p.capped ==> p.count == 1)
            && (p.truncated <==> p.capped || p.next.Some?)
            && (!p.capped && p.next.Some? && p.count < limit ==>
                  Bytes(lines, i, i + p.count) + lines[i + p.count].size > MAX_BYTES)
  {
    TakenIsLongest(lines, start - 1, limit, 0);
  }

  /** No page is larger than the byte budget. */
  lemma PageFits(s: seq<Byte>, start: nat, limit: nat)
    requires start >= 1 && limit >= 1
    ensures |PageOf(Lines(s, 0), start, limit).text| <= MAX_BYTES
  {
    LinesAreSound(s, 0);
    PageOfSoundLines(Lines(s, 0), start, limit);
  }

  lemma PageOfSoundLines(lines: seq<Line>, start: nat, limit: nat)
    requires start >= 1 && limit >= 1 && forall k | 0 <= k < |lines| :: Sound(lines[k])
    ensures |PageOf(lines, start, limit).text| <= MAX_BYTES
  {
    if start - 1 < |lines| {
      TakenFits(lines, start - 1, limit, 0);
      assert Sound(lines[start - 1]) && ShownLines(lines, start, start) == [];
    }
  }

  /** What reading on with next_offset shows: the text, the number of lines and
      the number of pages. */
  datatype Walked = Walked(text: seq<Byte>, lines: nat, pages: nat)

  function Walk(lines: seq<Line>, start: nat, limit: nat -> nat): Walked
    requires 1 <= start <= |lines| && forall o :: limit(o) >= 1
    decreases |lines| - start
  {
    var p := PageOf(lines, start, limit(start));
    PageMakesProgress(lines, start, limit(start));
    if p.next.None? then Walked(p.text, p.count, 1)
    else
      var w := Walk(lines, p.next.value, limit);
      Walked(p.text + w.text, p.count + w.lines, 1 + w.pages)
  }

  /** The walk ends, and it shows every line from `start` on exactly once and in
      order, whatever limits are asked for on the way. */
  lemma {:induction false} WalkShowsEveryLine(lines: seq<Line>, start: nat, limit: nat -> nat)
    requires 1 <= start <= |lines| && forall o :: limit(o) >= 1
    ensures Walk(lines, start, limit).text == ShownLines(lines, start - 1, |lines|)
    ensures Walk(lines, start, limit).lines == |lines| - (start - 1)
    decreases |lines| - start
  {
    var p := PageOf(lines, start, limit(start));
    PageMakesProgress(lines, start, limit(start));
    if p.next.Some? {
      WalkShowsEveryLine(lines, p.next.value, limit);
      ShownAdds(lines, start - 1, start - 1 + p.count, |lines|);
    }
  }

  lemma {:induction false} ShownSuffix(lines: seq<Line>, i: nat)
    requires i <= |lines|
    ensures ShownLines(lines, i, |lines|) == ShownAll(lines[i..])
    decreases |lines| - i
  {
    if i < |lines| {
      ShownSuffix(lines, i + 1);
      assert lines[i..][1..] == lines[i + 1..];
    }
  }

  /** With every line within the byte budget, the pages read from line 1 on put
      the file together again (with a final newline). */
  lemma WalkRebuildsTheFile(s: seq<Byte>, limit: nat -> nat)
    requires s != [] && AllFit(Lines(s, 0)) && forall o :: limit(o) >= 1
    ensures Walk(Lines(s, 0), 1, limit).text == s + FinalNewline(s)
  {
    var lines := Lines(s, 0);
    WalkShowsEveryLine(lines, 1, limit);
    ShownSuffix(lines, 0);
    LinesRebuild(s, 0);
    assert s[0..] == s && lines[0..] == lines;
  }

  // ---- Encoding ----------------------------------------------------------------------------

  lemma {:induction false} ShownLinesAreValid(lines: seq<Line>, i: nat, j: nat)
    requires i <= j <= |lines| && AllValid(lines)
    ensures Valid(ShownLines(lines, i, j))
    decreases j - i
  {
    if i < j {
      ShownLinesAreValid(lines, i + 1, j);
      ValidConcat(lines[i].shown, ShownLines(lines, i + 1, j));
    }
  }

  /** A page of a valid UTF-8 file is never refused as not text. */
  lemma PagesOfValidTextAreValid(s: seq<Byte>, start: nat, limit: nat)
    requires WellFormed(s) && start >= 1
    ensures WellFormed(PageOf(Lines(s, 0), start, limit).text)
  {
    ValidIsWellFormed(s);
    if s != [] { CharLenByLeadOfValid(s); }
    LinesAreValid(s, 0);
    PageTextIsValid(Lines(s, 0), start, limit);
    ValidIsWellFormed(PageOf(Lines(s, 0), start, limit).text);
  }

  lemma PageTextIsValid(lines: seq<Line>, start: nat, limit: nat)
    requires start >= 1 && AllValid(lines)
    ensures Valid(PageOf(lines, start, limit).text)
  {
    if start - 1 < |lines| {
      ShownLinesAreValid(lines, start - 1, start - 1 + PageOf(lines, start, limit).count);
    }
  }
}
