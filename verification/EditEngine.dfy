/** The edit tool: find each oldText in the original, refuse ambiguous or
    overlapping edits, and replace from the last match to the first. */
module EditEngine {
  import opened Requests
  import opened Text
  import opened LineEndings
  import opened FuzzyMatch

  datatype EditOp = EditOp(oldText: string, newText: string)

  datatype Match = Match(pos: nat, len: nat, newText: string)

  datatype EditError = EmptyOldText | NotFound | NotUnique | Overlapping

  datatype Result<T> = Ok(value: T) | Err(error: EditError)

  const BOM := "\U{EF}\U{BB}\U{BF}"

  // ---- Locating one edit --------------------------------------------------------

  function Localised(s: string, crlf: bool): string {
    if crlf then ToLf(s) else s
  }

  function LocateFuzzy(content: string, oldText: string): (r: Result<(nat, nat)>)
    ensures r.Ok? ==>
              && r.value.0 + r.value.1 <= |content|
              && (r.value.1 == 0 <==> Strip(oldText) == [])
              && Strip(content[r.value.0..r.value.0 + r.value.1]) == Strip(oldText)
  {
    var stripped, key := Strip(content), Strip(oldText);
    var at := Find(stripped, key, 0);
    if at.None? then Err(NotFound)
    else if Find(stripped, key, at.value + 1).Some? then Err(NotUnique)
    else Ok(Region(content, oldText, at.value))
  }

  /** Position and length, in the content, of a match found in the stripped text. */
  function Region(content: string, oldText: string, at: nat): (r: (nat, nat))
    requires OccursAt(Strip(content), Strip(oldText), at)
    ensures r.0 + r.1 <= |content|
    ensures r.1 == 0 <==> Strip(oldText) == []
    ensures Strip(content[r.0..r.0 + r.1]) == Strip(oldText)
  {
    FuzzyRegion(content, oldText, at);
    var m := PosMap(content, 0);
    (m[at], m[at + |Strip(oldText)|] - m[at])
  }

  function Locate(content: string, oldText: string): Result<(nat, nat)> {
    var at := Find(content, oldText, 0);
    if at.None? then LocateFuzzy(content, oldText)
    else if Find(content, oldText, at.value + 1).Some? then Err(NotUnique)
    else Ok((at.value, |oldText|))
  }

  ghost predicate Occurs(hay: string, needle: string) {
    exists i :: OccursAt(hay, needle, i)
  }

  ghost predicate OccursOnce(hay: string, needle: string) {
    exists i :: OccursAt(hay, needle, i) && forall j | OccursAt(hay, needle, j) :: j == i
  }

  lemma FindDecides(hay: string, needle: string)
    ensures Find(hay, needle, 0).Some? <==> Occurs(hay, needle)
    ensures Find(hay, needle, 0).Some? ==>
              (OccursOnce(hay, needle) <==> Find(hay, needle, Find(hay, needle, 0).value + 1).None?)
  {
    var at := Find(hay, needle, 0);
    if at.Some? {
      var next := Find(hay, needle, at.value + 1);
      if next.None? {
        assert forall j | OccursAt(hay, needle, j) :: j == at.value;
      } else {
        assert OccursAt(hay, needle, next.value) && next.value != at.value;
      }
    }
  }

  /** An edit is located exactly when its oldText occurs once as it stands, or not
      at all as it stands but once with trailing blanks ignored. */
  lemma LocatedExactlyWhenUnique(content: string, oldText: string)
    ensures Locate(content, oldText).Ok? <==>
              if Occurs(content, oldText) then OccursOnce(content, oldText)
              else OccursOnce(Strip(content), Strip(oldText))
    ensures Locate(content, oldText) == Err(NotFound) <==>
              !Occurs(content, oldText) && !Occurs(Strip(content), Strip(oldText))
    ensures Locate(content, oldText).Ok? || Locate(content, oldText) == Err(NotFound)
            || Locate(content, oldText) == Err(NotUnique)
  {
    FindDecides(content, oldText);
    if Find(content, oldText, 0).None? {
      FuzzyExactlyWhenUnique(content, oldText);
    }
  }

  lemma FuzzyExactlyWhenUnique(content: string, oldText: string)
    ensures LocateFuzzy(content, oldText).Ok? <==> OccursOnce(Strip(content), Strip(oldText))
    ensures LocateFuzzy(content, oldText) == Err(NotFound) <==> !Occurs(Strip(content), Strip(oldText))
  {
    FindDecides(Strip(content), Strip(oldText));
  }

  /** The region an edit replaces is its oldText; exactly, if it occurs as it
      stands, and up to blanks at line ends otherwise. */
  lemma LocatedRegion(content: string, oldText: string)
    requires Locate(content, oldText).Ok?
    ensures var (pos, len) := Locate(content, oldText).value;
            && pos + len <= |content|
            && (Occurs(content, oldText) ==> content[pos..pos + len] == oldText)
            && Strip(content[pos..pos + len]) == Strip(oldText)
  {
    var exact := Find(content, oldText, 0);
    if exact.None? {
      FindDecides(content, oldText);
      assert Locate(content, oldText) == LocateFuzzy(content, oldText);
    } else {
      FoundRegion(content, oldText, exact.value);
    }
  }

  lemma RegionIsKept(content: string, oldText: string, at: nat)
    requires OccursAt(Strip(content), Strip(oldText), at) && Strip(oldText) != []
    ensures var r := Region(content, oldText, at); BeginsKept(content, r.0) && EndsKept(content, r.0 + r.1)
  {
    RegionEnds(content, at, at + |Strip(oldText)|);
    FuzzyRegion(content, oldText, at);
  }

  lemma FuzzyFinds(content: string, oldText: string) returns (at: nat)
    requires !Occurs(content, oldText) && Locate(content, oldText).Ok?
    ensures OccursAt(Strip(content), Strip(oldText), at) && Locate(content, oldText) == Ok(Region(content, oldText, at))
  {
    FindDecides(content, oldText);
    at := Find(Strip(content), Strip(oldText), 0).value;
  }

  /** When the oldText does not occur as it stands, the region takes in the blanks that
      trail it, except at the very end of the file, and none that trail what is before. */
  lemma FuzzyRegionEnds(content: string, oldText: string)
    requires !Occurs(content, oldText) && Locate(content, oldText).Ok? && Strip(oldText) != []
    ensures var (pos, len) := Locate(content, oldText).value;
            BeginsKept(content, pos) && EndsKept(content, pos + len)
  {
    var at := FuzzyFinds(content, oldText);
    RegionIsKept(content, oldText, at);
  }

  lemma FoundRegion(content: string, oldText: string, at: nat)
    requires OccursAt(content, oldText, at)
    ensures at + |oldText| <= |content| && content[at..at + |oldText|] == oldText
  {
  }

  /** The empty text occurs once only in the empty text. */
  lemma EmptyNeedleUnique(hay: string)
    requires Find(hay, [], 0).Some? && Find(hay, [], Find(hay, [], 0).value + 1).None?
    ensures hay == []
  {
    assert OccursAt(hay, [], 0);
    if hay != [] {
      assert OccursAt(hay, [], 1);
    }
  }

  /** A located match is empty exactly when content and oldText are all blanks and
      the oldText does not occur as it stands. */
  lemma EmptyMatchExactly(content: string, oldText: string)
    requires oldText != [] && Locate(content, oldText).Ok?
    ensures Locate(content, oldText).value.1 == 0 <==>
              AllBlank(content) && AllBlank(oldText) && !Occurs(content, oldText)
  {
    FindDecides(content, oldText);
    if Find(content, oldText, 0).None? {
      StripEmpty(content);
      StripEmpty(oldText);
      if Strip(oldText) == [] {
        EmptyNeedleUnique(Strip(content));
      }
    }
  }

  /** An empty match stands at the start of the content. */
  lemma EmptyMatchIsAtStart(content: string, oldText: string)
    requires oldText != [] && Locate(content, oldText).Ok? && Locate(content, oldText).value.1 == 0
    ensures Locate(content, oldText).value.0 == 0
  {
    EmptyMatchExactly(content, oldText);
    FindDecides(content, oldText);
    StripEmpty(content);
    assert PosMap(content, 0) == [0];
  }

  /** The function as the source computes it, with the two loops of FuzzyMatch. */
  method LocateEdit(content: string, oldText: string) returns (r: Result<(nat, nat)>)
    ensures r == Locate(content, oldText)
  {
    var pos := Find(content, oldText, 0);
    if pos.None? {
      var strippedContent := StripTrailingBlanks(content);
      var strippedOld := StripTrailingBlanks(oldText);
      var spos := Find(strippedContent, strippedOld, 0);
      if spos.None? {
        return Err(NotFound);
      }
      if Find(strippedContent, strippedOld, spos.value + 1).Some? {
        return Err(NotUnique);
      }
      var posMap := BuildPosMap(content, strippedContent);
      FuzzyRegion(content, oldText, spos.value);
      return Ok((posMap[spos.value], posMap[spos.value + |strippedOld|] - posMap[spos.value]));
    }
    if Find(content, oldText, pos.value + 1).Some? {
      return Err(NotUnique);
    }
    return Ok((pos.value, |oldText|));
  }

  function MatchOf(content: string, op: EditOp, crlf: bool): Result<Match> {
    if op.oldText == [] then Err(EmptyOldText)
    else match Locate(content, Localised(op.oldText, crlf))
         case Err(e) => Err(e)
         case Ok((pos, len)) => Ok(Match(pos, len, Localised(op.newText, crlf)))
  }

  /** Every edit is matched against the original, in the order given. */
  function MatchAll(content: string, edits: seq<EditOp>, crlf: bool): Result<seq<Match>> {
    if edits == [] then Ok([])
    else match MatchOf(content, edits[0], crlf)
         case Err(e) => Err(e)
         case Ok(m) =>
           match MatchAll(content, edits[1..], crlf)
           case Err(e) => Err(e)
           case Ok(ms) => Ok([m] + ms)
  }

  // ---- Sorting and overlap --------------------------------------------------------

  ghost predicate SortedByPos(ms: seq<Match>) {
    forall i, j | 0 <= i < j < |ms| :: ms[i].pos <= ms[j].pos
  }

  /** What std::sort promises: a permutation in order of position; the order of
      equal positions is left open. */
  ghost predicate SortOf(ms: seq<Match>, sorted: seq<Match>) {
    multiset(ms) == multiset(sorted) && SortedByPos(sorted)
  }

  /** The check of neighbours that the source makes. */
  predicate NoOverlap(ms: seq<Match>) {
    forall i | 0 < i < |ms| :: Clear(ms, i)
  }

  predicate Clear(ms: seq<Match>, i: nat)
    requires 0 < i < |ms|
  {
    ms[i - 1].pos + ms[i - 1].len <= ms[i].pos
  }

  ghost predicate Within(ms: seq<Match>, s: string) {
    forall m | m in ms :: m.pos + m.len <= |s|
  }

  /** The check of neighbours excludes every overlap, and implies the order. */
  lemma {:induction false} NoOverlapAtAll(ms: seq<Match>, i: nat, j: nat)
    requires NoOverlap(ms) && i < j < |ms|
    ensures ms[i].pos + ms[i].len <= ms[j].pos
    decreases j
  {
    if i < j - 1 { NoOverlapAtAll(ms, i, j - 1); }
    assert Clear(ms, j);
  }

  function Insert(m: Match, sorted: seq<Match>): seq<Match> {
    if sorted == [] || m.pos <= sorted[0].pos then [m] + sorted
    else [sorted[0]] + Insert(m, sorted[1..])
  }

  function Sort(ms: seq<Match>): seq<Match> {
    if ms == [] then [] else Insert(ms[0], Sort(ms[1..]))
  }

  lemma {:induction false} InsertKeepsMatches(m: Match, sorted: seq<Match>)
    ensures multiset(Insert(m, sorted)) == multiset(sorted)[m := multiset(sorted)[m] + 1]
  {
    if sorted == [] || m.pos <= sorted[0].pos {
    } else {
      InsertKeepsMatches(m, sorted[1..]);
      assert sorted == [sorted[0]] + sorted[1..];
    }
  }

  lemma {:induction false} InsertKeepsOrder(m: Match, sorted: seq<Match>)
    requires SortedByPos(sorted)
    ensures SortedByPos(Insert(m, sorted))
  {
    if sorted != [] && m.pos > sorted[0].pos {
      InsertKeepsOrder(m, sorted[1..]);
      InsertKeepsBound(m, sorted[1..], sorted[0].pos);
    }
  }

  lemma {:induction false} InsertKeepsBound(m: Match, sorted: seq<Match>, low: nat)
    requires low <= m.pos && forall x | x in sorted :: low <= x.pos
    ensures forall x | x in Insert(m, sorted) :: low <= x.pos
  {
    if sorted != [] && m.pos > sorted[0].pos { InsertKeepsBound(m, sorted[1..], low); }
  }

  lemma {:induction false} SortSorts(ms: seq<Match>)
    ensures SortOf(ms, Sort(ms))
  {
    if ms != [] {
      SortSorts(ms[1..]);
      InsertKeepsMatches(ms[0], Sort(ms[1..]));
      InsertKeepsOrder(ms[0], Sort(ms[1..]));
      assert ms == [ms[0]] + ms[1..];
    }
  }

  // ---- Substitution -----------------------------------------------------------------

  lemma SuffixMatches(ms: seq<Match>, s: string, k: nat)
    requires NoOverlap(ms) && Within(ms, s) && k <= |ms|
    ensures NoOverlap(ms[k..]) && Within(ms[k..], s)
    ensures 0 < k < |ms| ==> MatchEnd(ms, k) <= ms[k].pos
    ensures MatchEnd(ms, k) <= |s|
  {
    forall i | 0 < i < |ms[k..]| ensures Clear(ms[k..], i) {
      assert Clear(ms, k + i);
    }
    if 0 < k < |ms| { assert Clear(ms, k); }
    if k > 0 { assert ms[k - 1] in ms; }
  }

  /** End of the `k`-th match, or the start of the text. */
  function MatchEnd(ms: seq<Match>, k: nat): nat
    requires k <= |ms|
  {
    if k == 0 then 0 else ms[k - 1].pos + ms[k - 1].len
  }

  /** Left-to-right substitution on the original, from position `at` on. */
  function Subst(s: string, ms: seq<Match>, at: nat): string
    requires NoOverlap(ms) && Within(ms, s) && at <= |s| && (ms != [] ==> at <= ms[0].pos)
    decreases |ms|
  {
    if ms == [] then s[at..]
    else
      SuffixMatches(ms, s, 1);
      assert ms[0] in ms;
      s[at..ms[0].pos] + ms[0].newText + Subst(s, ms[1..], MatchEnd(ms, 1))
  }

  lemma SubstFromEarlier(s: string, ms: seq<Match>, a: nat, b: nat)
    requires NoOverlap(ms) && Within(ms, s) && a <= b <= |s| && (ms != [] ==> b <= ms[0].pos)
    ensures Subst(s, ms, a) == s[a..b] + Subst(s, ms, b)
  {
    if ms != [] {
      assert ms[0] in ms;
      SliceSplit(s, a, b, ms[0].pos);
      SuffixMatches(ms, s, 1);
      GapInFront(s[a..b], s[b..ms[0].pos], s[a..ms[0].pos], ms[0].newText, Subst(s, ms[1..], MatchEnd(ms, 1)));
    } else {
      SliceSplit(s, a, b, |s|);
    }
  }

  lemma SliceSplit(s: string, a: nat, b: nat, c: nat)
    requires a <= b <= c <= |s|
    ensures s[a..c] == s[a..b] + s[b..c]
    ensures c == |s| ==> s[a..] == s[a..b] + s[b..]
  {
  }

  lemma GapInFront(x: string, y: string, xy: string, z: string, rest: string)
    requires xy == x + y
    ensures xy + z + rest == x + (y + z + rest)
  {
  }

  lemma ReplaceStep(s: string, ms: seq<Match>, k: nat, content: string)
    requires NoOverlap(ms) && Within(ms, s) && k < |ms|
    requires NoOverlap(ms[k + 1..]) && Within(ms[k + 1..], s) && content == Subst(s, ms[k + 1..], 0)
    ensures NoOverlap(ms[k..]) && Within(ms[k..], s)
    ensures ms[k].pos + ms[k].len <= |content|
    ensures content[..ms[k].pos] + ms[k].newText + content[ms[k].pos + ms[k].len..] == Subst(s, ms[k..], 0)
  {
    SuffixMatches(ms, s, k);
    SuffixMatches(ms, s, k + 1);
    var m := ms[k];
    var end := m.pos + m.len;
    assert m in ms;
    SubstFromEarlier(s, ms[k + 1..], 0, end);
    assert content[..m.pos] == s[0..m.pos];
    assert content[end..] == Subst(s, ms[k + 1..], end);
    assert ms[k..][1..] == ms[k + 1..];
  }

  /** In place, from the last match to the first: positions to the left stay
      valid, and the result is the left-to-right substitution on the original. */
  method ApplyInReverse(s: string, ms: seq<Match>) returns (content: string)
    requires NoOverlap(ms) && Within(ms, s)
    ensures content == Subst(s, ms, 0)
  {
    content := s;
    var k := |ms|;
    SuffixMatches(ms, s, k);
    while k > 0
      invariant 0 <= k <= |ms|
      invariant NoOverlap(ms[k..]) && Within(ms[k..], s)
      invariant content == Subst(s, ms[k..], 0)
    {
      k := k - 1;
      ReplaceStep(s, ms, k, content);
      content := content[..ms[k].pos] + ms[k].newText + content[ms[k].pos + ms[k].len..];
    }
    assert ms[0..] == ms;
  }

  /** By how much the text before match `k` has grown. */
  function Growth(ms: seq<Match>, k: nat): int
    requires k <= |ms|
  {
    if k == 0 then 0 else Growth(ms, k - 1) + |ms[k - 1].newText| - ms[k - 1].len
  }

  /** The result is what the first `k` matches built, followed by the rest. */
  lemma {:induction false} SubstSplit(s: string, ms: seq<Match>, k: nat) returns (built: string)
    requires NoOverlap(ms) && Within(ms, s) && k <= |ms|
    ensures NoOverlap(ms[k..]) && Within(ms[k..], s) && MatchEnd(ms, k) <= |s|
    ensures k < |ms| ==> MatchEnd(ms, k) <= ms[k].pos
    ensures |built| == MatchEnd(ms, k) + Growth(ms, k)
    ensures Subst(s, ms, 0) == built + Subst(s, ms[k..], MatchEnd(ms, k))
  {
    SuffixMatches(ms, s, k);
    if k == 0 {
      built := [];
      assert ms[0..] == ms;
    } else {
      var before := SubstSplit(s, ms, k - 1);
      built := before + (s[MatchEnd(ms, k - 1)..ms[k - 1].pos] + ms[k - 1].newText);
      SubstUnfold(s, ms, k - 1);
      Assoc(before, s[MatchEnd(ms, k - 1)..ms[k - 1].pos] + ms[k - 1].newText, Subst(s, ms[k..], MatchEnd(ms, k)));
    }
  }

  lemma SubstUnfold(s: string, ms: seq<Match>, k: nat)
    requires NoOverlap(ms) && Within(ms, s) && k < |ms|
    ensures NoOverlap(ms[k..]) && Within(ms[k..], s) && NoOverlap(ms[k + 1..]) && Within(ms[k + 1..], s)
    ensures MatchEnd(ms, k) <= ms[k].pos <= MatchEnd(ms, k + 1) <= |s|
    ensures k + 1 < |ms| ==> MatchEnd(ms, k + 1) <= ms[k + 1].pos
    ensures Subst(s, ms[k..], MatchEnd(ms, k)) ==
            (s[MatchEnd(ms, k)..ms[k].pos] + ms[k].newText) + Subst(s, ms[k + 1..], MatchEnd(ms, k + 1))
  {
    SuffixMatches(ms, s, k);
    SuffixMatches(ms, s, k + 1);
    var tail := ms[k..];
    assert tail[0] == ms[k] && tail[1..] == ms[k + 1..] && tail[0] in tail;
    assert MatchEnd(tail, 1) == MatchEnd(ms, k + 1);
    if k > 0 { assert Clear(ms, k); }
  }

  /** Everything the result contains, by position: each newText where its match
      was, shifted by the growth so far, and every byte between matches. */
  lemma SubstAtMatch(s: string, ms: seq<Match>, k: nat)
    requires NoOverlap(ms) && Within(ms, s) && k < |ms|
    ensures ShownAt(Subst(s, ms, 0), s, MatchEnd(ms, k), ms[k], Growth(ms, k))
  {
    var built, rest := SubstParts(s, ms, k);
    PartsAt(Subst(s, ms, 0), s, built, MatchEnd(ms, k), ms[k], rest, Growth(ms, k));
  }

  /** In `whole`, whose parts stand `growth` further on than in `s`, the text from
      `from` to the match is kept, and the new text follows it. */
  predicate ShownAt(whole: string, s: string, from: nat, m: Match, growth: int) {
    && from <= m.pos <= |s| && 0 <= from + growth && m.pos + growth + |m.newText| <= |whole|
    && whole[from + growth..m.pos + growth] == s[from..m.pos]
    && whole[m.pos + growth..m.pos + growth + |m.newText|] == m.newText
  }

  lemma PartsAt(whole: string, s: string, built: string, from: nat, m: Match, rest: string, growth: int)
    requires from <= m.pos <= |s| && |built| == from + growth
    requires whole == built + ((s[from..m.pos] + m.newText) + rest)
    ensures ShownAt(whole, s, from, m, growth)
  {
    Slices(whole, built, s[from..m.pos], m.newText, rest, from + growth, m.pos + growth);
  }

  lemma SubstParts(s: string, ms: seq<Match>, k: nat) returns (built: string, rest: string)
    requires NoOverlap(ms) && Within(ms, s) && k < |ms|
    ensures MatchEnd(ms, k) <= ms[k].pos <= |s|
    ensures |built| == MatchEnd(ms, k) + Growth(ms, k)
    ensures Subst(s, ms, 0) == built + ((s[MatchEnd(ms, k)..ms[k].pos] + ms[k].newText) + rest)
  {
    built := SubstSplit(s, ms, k);
    SubstUnfold(s, ms, k);
    rest := Subst(s, ms[k + 1..], MatchEnd(ms, k + 1));
  }

  lemma Slices(r: string, a: string, b: string, c: string, d: string, from: int, at: int)
    requires r == a + ((b + c) + d) && from == |a| && at == from + |b|
    ensures at + |c| <= |r| && r[from..at] == b && r[at..at + |c|] == c
  {
  }

  lemma SubstAtEnd(s: string, ms: seq<Match>)
    requires NoOverlap(ms) && Within(ms, s)
    ensures var r, n := Subst(s, ms, 0), |ms|;
            && MatchEnd(ms, n) <= |s| && |r| == |s| + Growth(ms, n)
            && 0 <= MatchEnd(ms, n) + Growth(ms, n) <= |r|
            && r[MatchEnd(ms, n) + Growth(ms, n)..] == s[MatchEnd(ms, n)..]
  {
    var built := SubstSplit(s, ms, |ms|);
    assert built + s[MatchEnd(ms, |ms|)..] == Subst(s, ms, 0);
  }

  /** Matches that put back what they cover change nothing. */
  lemma {:induction false} SubstIdentity(s: string, ms: seq<Match>, at: nat)
    requires NoOverlap(ms) && Within(ms, s) && at <= |s| && (ms != [] ==> at <= ms[0].pos)
    requires forall m | m in ms :: m.pos + m.len <= |s| && s[m.pos..m.pos + m.len] == m.newText
    ensures Subst(s, ms, at) == s[at..]
    decreases |ms|
  {
    if ms != [] {
      assert ms[0] in ms;
      SuffixMatches(ms, s, 1);
      SubstIdentity(s, ms[1..], MatchEnd(ms, 1));
      assert s[at..] == s[at..ms[0].pos] + s[ms[0].pos..MatchEnd(ms, 1)] + s[MatchEnd(ms, 1)..];
    }
  }
}
