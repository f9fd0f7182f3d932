/** What an edit writes, in terms of the file's bytes and the edits as the client
    sent them. */
module EditResult {
  import opened Requests
  import opened Text
  import opened LineEndings
  import opened FuzzyMatch
  import opened EditEngine
  import opened EditTool

  /** A text of the client in the line endings that are matched. */
  function Sent(s: string, crlf: bool): string {
    if crlf then ToLf(s) else s
  }

  /** Each located match has the region of its own edit's oldText and carries that
      edit's newText. */
  lemma MatchCarriesItsEdit(content: string, edits: seq<EditOp>, crlf: bool, i: nat)
    requires MatchAll(content, edits, crlf).Ok? && i < |edits|
    ensures var ms := MatchAll(content, edits, crlf).value;
            && |ms| == |edits| && edits[i].oldText != []
            && Locate(content, Sent(edits[i].oldText, crlf)) == Ok((ms[i].pos, ms[i].len))
            && ms[i].newText == Sent(edits[i].newText, crlf)
  {
    MatchAllIs(content, edits, crlf);
    CarriedBy(content, edits[i], crlf, MatchAll(content, edits, crlf).value[i]);
  }

  lemma CarriedBy(content: string, op: EditOp, crlf: bool, m: Match)
    requires MatchOf(content, op, crlf) == Ok(m)
    ensures op.oldText != [] && Locate(content, Sent(op.oldText, crlf)) == Ok((m.pos, m.len))
    ensures m.newText == Sent(op.newText, crlf)
  {
  }

  /** The file that is written: the BOM of the original, then the text, with CR LF
      throughout if the original had any, and with its bytes as they are otherwise. */
  lemma RebuiltFile(bytes: string, text: string)
    ensures var r := Rebuild(bytes, text);
            var body := if HasBom(bytes) then r[|BOM|..] else r;
            && (HasBom(bytes) ==> r[..|BOM|] == BOM)
            && (SomeLfAfterCr(Body(bytes)) ==> EveryLfAfterCr(body) && ToLf(body) == text)
            && (!SomeLfAfterCr(Body(bytes)) ==> body == text)
  {
    HasCrlfMeans(Body(bytes));
    LfOfCrlf(text);
    CrlfOfLf(ToCrlf(text));
    var body := if HasCrlf(Body(bytes)) then ToCrlf(text) else text;
    Behind(if HasBom(bytes) then BOM else [], body);
  }

  lemma Behind(front: string, body: string)
    ensures (front + body)[..|front|] == front && (front + body)[|front|..] == body
    ensures front == [] ==> front + body == body
  {
  }

  /** The error of the search, or the file with the located region replaced by the new
      text. */
  ghost predicate Writes(bytes: string, content: string, located: Result<(nat, nat)>, newText: string,
                         r: Result<string>) {
    match located
    case Err(e) => r == Err(e)
    case Ok((pos, len)) =>
      && pos + len <= |content|
      && r == Ok(Rebuild(bytes, content[..pos] + newText + content[pos + len..]))
  }

  /** One edit writes what its own two texts say. */
  lemma OneEditWrites(bytes: string, crlf: bool, content: string, op: EditOp, r: Result<string>)
    requires crlf == HasCrlf(Body(bytes)) && content == Sent(Body(bytes), crlf)
    requires op.oldText != [] && Outcome(bytes, [op], r)
    ensures Writes(bytes, content, Locate(content, Sent(op.oldText, crlf)), Sent(op.newText, crlf), r)
  {
    assert content == Content(bytes);
    var found := MatchOf(content, op, crlf);
    MatchOfIs(content, op, crlf, Locate(content, Sent(op.oldText, crlf)));
    OneMatch(content, op, crlf);
    OneOutcome(bytes, [op], found, Locate(content, Sent(op.oldText, crlf)), Sent(op.newText, crlf), r);
  }

  function WithText(located: Result<(nat, nat)>, newText: string): Result<Match> {
    match located case Err(e) => Err(e) case Ok((pos, len)) => Ok(Match(pos, len, newText))
  }

  lemma MatchOfIs(content: string, op: EditOp, crlf: bool, located: Result<(nat, nat)>)
    requires op.oldText != [] && located == Locate(content, Sent(op.oldText, crlf))
    ensures MatchOf(content, op, crlf) == WithText(located, Sent(op.newText, crlf))
  {
  }

  function AsList(found: Result<Match>): Result<seq<Match>> {
    match found case Err(e) => Err(e) case Ok(m) => Ok([m])
  }

  lemma OneOutcome(bytes: string, edits: seq<EditOp>, found: Result<Match>, located: Result<(nat, nat)>,
                   newText: string, r: Result<string>)
    requires edits != [] && Outcome(bytes, edits, r) && found == WithText(located, newText)
    requires MatchAll(Content(bytes), edits, HasCrlf(Body(bytes))) == AsList(found)
    ensures Writes(bytes, Content(bytes), located, newText, r)
  {
    if found.Ok? {
      MatchAllWithin(Content(bytes), edits, HasCrlf(Body(bytes)));
      assert found.value in [found.value];
      var sorted := SortOfOutcome(bytes, edits, [found.value], r);
      OneMatchWrites(bytes, found.value, sorted);
    }
  }

  lemma SortOfOutcome(bytes: string, edits: seq<EditOp>, ms: seq<Match>, r: Result<string>)
    returns (sorted: seq<Match>)
    requires edits != [] && Outcome(bytes, edits, r)
    requires MatchAll(Content(bytes), edits, HasCrlf(Body(bytes))) == Ok(ms)
    ensures SortOf(ms, sorted) && Within(sorted, Content(bytes)) && r == Finish(bytes, sorted)
  {
    sorted :| SortOf(ms, sorted) && Within(sorted, Content(bytes)) && r == Finish(bytes, sorted);
  }

  lemma OneMatchWrites(bytes: string, m: Match, sorted: seq<Match>)
    requires SortOf([m], sorted) && m.pos + m.len <= |Content(bytes)|
    ensures var content := Content(bytes);
            && Within(sorted, content)
            && Finish(bytes, sorted) ==
               Ok(Rebuild(bytes, content[..m.pos] + m.newText + content[m.pos + m.len..]))
  {
    OnlySort(m, sorted);
    OneReplacement(Content(bytes), m);
  }

  // ---- Which edit is refused, and why -----------------------------------------------

  /** What an error says about the edit it is about. */
  ghost predicate Refuses(content: string, op: EditOp, crlf: bool, e: EditError) {
    var oldText := Sent(op.oldText, crlf);
    match e
    case EmptyOldText => op.oldText == []
    case NotFound => op.oldText != [] && !Occurs(content, oldText) && !Occurs(Strip(content), Strip(oldText))
    case NotUnique =>
      && op.oldText != []
      && if Occurs(content, oldText) then !OccursOnce(content, oldText)
         else Occurs(Strip(content), Strip(oldText)) && !OccursOnce(Strip(content), Strip(oldText))
    case Overlapping => false
  }

  lemma MatchOrRefusal(content: string, op: EditOp, crlf: bool)
    ensures match MatchOf(content, op, crlf)
            case Err(e) => Refuses(content, op, crlf, e)
            case Ok(_) => forall e :: !Refuses(content, op, crlf, e)
  {
    var oldText := Sent(op.oldText, crlf);
    LocatedExactlyWhenUnique(content, oldText);
    OnceIsSomewhere(content, oldText);
    OnceIsSomewhere(Strip(content), Strip(oldText));
    assert op.oldText != [] && MatchOf(content, op, crlf).Err? ==>
      MatchOf(content, op, crlf).error == Locate(content, oldText).error;
  }

  lemma OnceIsSomewhere(hay: string, needle: string)
    ensures OccursOnce(hay, needle) ==> Occurs(hay, needle)
  {
  }

  lemma {:induction false} FirstError(content: string, edits: seq<EditOp>, crlf: bool, e: EditError) returns (i: nat)
    requires MatchAll(content, edits, crlf) == Err(e)
    ensures i < |edits| && MatchOf(content, edits[i], crlf) == Err(e)
    ensures forall j | 0 <= j < i :: MatchOf(content, edits[j], crlf).Ok?
  {
    i := 0;
    if MatchOf(content, edits[0], crlf).Ok? {
      i := FirstError(content, edits[1..], crlf, e);
      forall j | 0 <= j < i + 1 ensures MatchOf(content, edits[j], crlf).Ok? {
        if j > 0 { assert edits[j] == edits[1..][j - 1]; }
      }
      i := i + 1;
    }
  }

  /** A refusal of an edit is about the first edit, in the order given, that is empty,
      not found or ambiguous; overlap is reported only when there is none. */
  lemma RefusalIsFirst(bytes: string, edits: seq<EditOp>, e: EditError) returns (i: nat)
    requires Outcome(bytes, edits, Err(e))
    ensures var crlf := HasCrlf(Body(bytes));
            var content := Sent(Body(bytes), crlf);
            && i <= |edits| && (i == |edits| <==> e == Overlapping)
            && (i < |edits| ==> Refuses(content, edits[i], crlf, e))
            && forall j, e' | 0 <= j < i :: !Refuses(content, edits[j], crlf, e')
  {
    var crlf, content := HasCrlf(Body(bytes)), Content(bytes);
    i := |edits|;
    if MatchAll(content, edits, crlf).Err? {
      i := FirstError(content, edits, crlf, e);
      MatchOrRefusal(content, edits[i], crlf);
    } else {
      MatchAllIs(content, edits, crlf);
    }
    forall j | 0 <= j < i ensures forall e' :: !Refuses(content, edits[j], crlf, e') {
      MatchOrRefusal(content, edits[j], crlf);
    }
  }

  lemma OneMatch(content: string, op: EditOp, crlf: bool)
    ensures MatchAll(content, [op], crlf) == AsList(MatchOf(content, op, crlf))
  {
    assert [op][1..] == [];
    assert MatchAll(content, [], crlf) == Ok([]);
    if MatchOf(content, op, crlf).Ok? {
      assert [MatchOf(content, op, crlf).value] + [] == [MatchOf(content, op, crlf).value];
    }
  }

  lemma OnlySort(m: Match, sorted: seq<Match>)
    requires SortOf([m], sorted)
    ensures sorted == [m]
  {
    assert |multiset(sorted)| == |multiset([m])| == 1;
    assert sorted[0] in multiset(sorted) && multiset([m]) == multiset{m};
  }

  lemma OneReplacement(content: string, m: Match)
    requires m.pos + m.len <= |content|
    ensures NoOverlap([m]) && Within([m], content)
    ensures Subst(content, [m], 0) == content[..m.pos] + m.newText + content[m.pos + m.len..]
  {
    assert [m][1..] == [];
    assert MatchEnd([m], 1) == m.pos + m.len;
    assert content[0..m.pos] == content[..m.pos];
  }

  /** Any number of edits: if they succeed, the written text holds the new text of
      every edit, at its region moved by the growth of the edits before it. */
  lemma EveryEditIsWritten(bytes: string, edits: seq<EditOp>, r: Result<string>, i: nat)
    returns (text: string, at: nat)
    requires i < |edits| && Outcome(bytes, edits, r) && r.Ok?
    ensures r == Ok(Rebuild(bytes, text))
    ensures OccursAt(text, Sent(edits[i].newText, HasCrlf(Body(bytes))), at)
  {
    var crlf, content := HasCrlf(Body(bytes)), Content(bytes);
    var ms := MatchAll(content, edits, crlf).value;
    MatchCarriesItsEdit(content, edits, crlf, i);
    var sorted := SortOfOutcome(bytes, edits, ms, r);
    text := Subst(content, sorted, 0);
    var k := SortKeeps(ms, sorted, i);
    at := NewTextAt(content, sorted, k);
  }

  lemma SortKeeps(ms: seq<Match>, sorted: seq<Match>, i: nat) returns (k: nat)
    requires SortOf(ms, sorted) && i < |ms|
    ensures k < |sorted| && sorted[k] == ms[i]
  {
    assert ms[i] in multiset(sorted);
    k :| 0 <= k < |sorted| && sorted[k] == ms[i];
  }

  lemma NewTextAt(content: string, sorted: seq<Match>, k: nat) returns (at: nat)
    requires NoOverlap(sorted) && Within(sorted, content) && k < |sorted|
    ensures OccursAt(Subst(content, sorted, 0), sorted[k].newText, at)
  {
    SubstAtMatch(content, sorted, k);
    at := sorted[k].pos + Growth(sorted, k);
  }
}
