/** The edit tool as a whole: from the bytes of a file and a list of edits to the
    bytes written back. */
module EditTool {
  import opened Requests
  import opened Text
  import opened LineEndings
  import opened FuzzyMatch
  import opened EditEngine

  predicate HasBom(bytes: string) {
    |bytes| >= 3 && bytes[..3] == BOM
  }

  function Body(bytes: string): string {
    if HasBom(bytes) then bytes[3..] else bytes
  }

  function Content(bytes: string): string {
    Localised(Body(bytes), HasCrlf(Body(bytes)))
  }

  /** Puts back the line endings and the BOM of the original. */
  function Rebuild(bytes: string, content: string): string {
    (if HasBom(bytes) then BOM else []) + (if HasCrlf(Body(bytes)) then ToCrlf(content) else content)
  }

  function Finish(bytes: string, sorted: seq<Match>): Result<string>
    requires Within(sorted, Content(bytes))
  {
    if NoOverlap(sorted) then Ok(Rebuild(bytes, Subst(Content(bytes), sorted, 0))) else Err(Overlapping)
  }

  /** What a call may return: the sort leaves the order of equal positions open. */
  ghost predicate Outcome(bytes: string, edits: seq<EditOp>, r: Result<string>) {
    if edits == [] then r == Ok(bytes)
    else match MatchAll(Content(bytes), edits, HasCrlf(Body(bytes)))
         case Err(e) => r == Err(e)
         case Ok(ms) => exists sorted ::
           SortOf(ms, sorted) && Within(sorted, Content(bytes)) && r == Finish(bytes, sorted)
  }

  lemma {:induction false} MatchAllIs(content: string, edits: seq<EditOp>, crlf: bool)
    ensures MatchAll(content, edits, crlf).Ok? <==> forall op | op in edits :: MatchOf(content, op, crlf).Ok?
    ensures MatchAll(content, edits, crlf).Ok? ==>
              && |MatchAll(content, edits, crlf).value| == |edits|
              && forall i | 0 <= i < |edits| ::
                   MatchOf(content, edits[i], crlf) == Ok(MatchAll(content, edits, crlf).value[i])
  {
    if edits != [] {
      var rest := edits[1..];
      MatchAllIs(content, rest, crlf);
      assert edits[0] in edits;
      forall op | op in edits ensures op == edits[0] || op in rest {}
      if MatchAll(content, edits, crlf).Ok? {
        MatchAllCons(content, edits, crlf);
        forall i | 0 <= i < |edits|
          ensures MatchOf(content, edits[i], crlf) == Ok(MatchAll(content, edits, crlf).value[i])
        {
          if i > 0 { assert edits[i] == rest[i - 1]; }
        }
      }
    }
  }

  lemma MatchAllCons(content: string, edits: seq<EditOp>, crlf: bool)
    requires edits != [] && MatchAll(content, edits, crlf).Ok?
    ensures MatchOf(content, edits[0], crlf).Ok? && MatchAll(content, edits[1..], crlf).Ok?
    ensures MatchAll(content, edits, crlf).value ==
            [MatchOf(content, edits[0], crlf).value] + MatchAll(content, edits[1..], crlf).value
  {
  }

  lemma MatchOfWithin(content: string, op: EditOp, crlf: bool)
    requires MatchOf(content, op, crlf).Ok?
    ensures var m := MatchOf(content, op, crlf).value; m.pos + m.len <= |content|
  {
    LocatedRegion(content, Localised(op.oldText, crlf));
  }

  lemma MatchAllWithin(content: string, edits: seq<EditOp>, crlf: bool)
    requires MatchAll(content, edits, crlf).Ok?
    ensures Within(MatchAll(content, edits, crlf).value, content)
  {
    MatchAllIs(content, edits, crlf);
    var ms := MatchAll(content, edits, crlf).value;
    forall m | m in ms ensures m.pos + m.len <= |content| {
      var i :| 0 <= i < |ms| && ms[i] == m;
      MatchOfWithin(content, edits[i], crlf);
    }
  }

  lemma SortWithin(ms: seq<Match>, sorted: seq<Match>, s: string)
    requires SortOf(ms, sorted) && Within(ms, s)
    ensures Within(sorted, s)
  {
    forall m | m in sorted ensures m.pos + m.len <= |s| {
      assert m in multiset(ms);
    }
  }

  method LocaliseText(s: string, crlf: bool) returns (r: string)
    ensures r == Localised(s, crlf)
  {
    r := s;
    if crlf { r := NormalizeLineEndings(s); }
  }

  method FindMatches(content: string, edits: seq<EditOp>, crlf: bool) returns (r: Result<seq<Match>>)
    ensures r == MatchAll(content, edits, crlf)
  {
    var ms := [];
    assert edits[0..] == edits;
    WithNoMatches(MatchAll(content, edits, crlf));
    for i := 0 to |edits|
      invariant MatchAll(content, edits, crlf) == WithMatches(ms, MatchAll(content, edits[i..], crlf))
    {
      var op := edits[i];
      assert edits[i..][1..] == edits[i + 1..];
      if op.oldText == [] {
        return Err(EmptyOldText);
      }
      var oldText := LocaliseText(op.oldText, crlf);
      var newText := LocaliseText(op.newText, crlf);
      var found := LocateEdit(content, oldText);
      if found.Err? {
        return Err(found.error);
      }
      var m := Match(found.value.0, found.value.1, newText);
      WithOneMore(ms, m, MatchAll(content, edits[i + 1..], crlf));
      ms := ms + [m];
    }
    assert edits[|edits|..] == [] && ms + [] == ms;
    return Ok(ms);
  }

  lemma WithNoMatches(r: Result<seq<Match>>)
    ensures WithMatches([], r) == r
  {
    if r.Ok? { assert [] + r.value == r.value; }
  }

  function WithMatches(ms: seq<Match>, r: Result<seq<Match>>): Result<seq<Match>> {
    match r case Err(e) => Err(e) case Ok(rest) => Ok(ms + rest)
  }

  lemma WithOneMore(ms: seq<Match>, m: Match, r: Result<seq<Match>>)
    ensures WithMatches(ms, WithMatches([m], r)) == WithMatches(ms + [m], r)
  {
    if r.Ok? { assert ms + ([m] + r.value) == ms + [m] + r.value; }
  }

  method CheckOverlap(ms: seq<Match>) returns (ok: bool)
    ensures ok == NoOverlap(ms)
  {
    var i := 1;
    while i < |ms|
      invariant 1 <= i
      invariant forall j | 0 < j < i && j < |ms| :: Clear(ms, j)
    {
      if ms[i].pos < ms[i - 1].pos + ms[i - 1].len {
        assert !Clear(ms, i);
        return false;
      }
      assert Clear(ms, i);
      i := i + 1;
    }
    return true;
  }

  /** The tool, from file bytes to file bytes. */
  method Edit(bytes: string, edits: seq<EditOp>) returns (r: Result<string>)
    ensures Outcome(bytes, edits, r)
  {
    if edits == [] {
      return Ok(bytes);
    }
    var hasBom := |bytes| >= 3 && bytes[..3] == BOM;
    var content := bytes;
    if hasBom { content := content[3..]; }
    var hasCrlf := Find(content, "\r\n", 0).Some?;
    content := LocaliseText(content, hasCrlf);
    var found := FindMatches(content, edits, hasCrlf);
    if found.Err? {
      return Err(found.error);
    }
    MatchAllWithin(content, edits, hasCrlf);
    var sorted := Sort(found.value);
    SortSorts(found.value);
    SortWithin(found.value, sorted, content);
    var ok := CheckOverlap(sorted);
    if !ok {
      return Err(Overlapping);
    }
    var result := ApplyInReverse(content, sorted);
    if hasCrlf { result := RestoreLineEndings(result); }
    if hasBom { result := BOM + result; } else { assert [] + result == result; }
    return Ok(result);
  }

  // ---- The order of the edits does not matter ------------------------------------

  /** The edit names something visible, or the file does. */
  ghost predicate NamesText(content: string, op: EditOp, crlf: bool) {
    !AllBlank(content) || !AllBlank(Localised(op.oldText, crlf))
  }

  lemma {:induction false} LocalisedNonEmpty(s: string)
    requires s != []
    ensures ToLf(s) != []
  {
    if s[0] == '\r' && |s| > 1 && s[1] == '\n' { LocalisedNonEmpty(s[1..]); }
  }

  lemma VisibleEditsMatchSomething(content: string, op: EditOp, crlf: bool)
    requires MatchOf(content, op, crlf).Ok? && NamesText(content, op, crlf)
    ensures MatchOf(content, op, crlf).value.len > 0
  {
    LocalisedNonEmpty(op.oldText);
    EmptyMatchExactly(content, Localised(op.oldText, crlf));
  }

  lemma RemoveAt<T>(s: seq<T>, i: nat)
    requires i < |s|
    ensures multiset(Without(s, i)) == multiset(s) - multiset{s[i]}
    ensures multiset(s) == multiset(Without(s, i)) + multiset{s[i]}
  {
    assert s == s[..i] + [s[i]] + s[i + 1..];
    assert multiset(s) == multiset(s[..i]) + multiset([s[i]]) + multiset(s[i + 1..]);
    assert multiset(Without(s, i)) == multiset(s[..i]) + multiset(s[i + 1..]);
  }

  lemma SameElements<T>(a: seq<T>, b: seq<T>)
    requires multiset(a) == multiset(b)
    ensures |a| == |b|
    ensures forall x :: x in a <==> x in b
  {
    assert |multiset(a)| == |multiset(b)|;
    forall x ensures x in a <==> x in b {
      assert x in a <==> x in multiset(a);
      assert x in b <==> x in multiset(b);
    }
  }

  lemma MatchAllWithout(content: string, edits: seq<EditOp>, crlf: bool, i: nat)
    requires MatchAll(content, edits, crlf).Ok? && i < |edits|
    ensures |MatchAll(content, edits, crlf).value| == |edits|
    ensures var ms := MatchAll(content, edits, crlf).value;
            MatchAll(content, Without(edits, i), crlf) == Ok(Without(ms, i))
  {
    MatchAllIs(content, edits, crlf);
    var rest := Without(edits, i);
    forall op | op in rest ensures op in edits {}
    MatchAllIs(content, rest, crlf);
    SameWithout(content, edits, crlf, i, MatchAll(content, edits, crlf).value, MatchAll(content, rest, crlf).value);
  }

  lemma SameWithout(content: string, edits: seq<EditOp>, crlf: bool, i: nat, ms: seq<Match>, ns: seq<Match>)
    requires i < |edits| == |ms| && |ns| == |edits| - 1
    requires forall j | 0 <= j < |edits| :: MatchOf(content, edits[j], crlf) == Ok(ms[j])
    requires forall j | 0 <= j < |ns| :: MatchOf(content, Without(edits, i)[j], crlf) == Ok(ns[j])
    ensures ns == Without(ms, i)
  {
    forall j | 0 <= j < |ns| ensures ns[j] == Without(ms, i)[j] {
      WithoutAt(edits, i, j);
      WithoutAt(ms, i, j);
    }
  }

  lemma WithoutAt<T>(s: seq<T>, i: nat, j: nat)
    requires i < |s| && j < |s| - 1
    ensures Without(s, i)[j] == s[if j < i then j else j + 1]
  {
  }

  lemma {:induction false} SamePermutation(content: string, a: seq<EditOp>, b: seq<EditOp>, crlf: bool)
    requires multiset(a) == multiset(b)
    requires MatchAll(content, a, crlf).Ok? && MatchAll(content, b, crlf).Ok?
    ensures multiset(MatchAll(content, a, crlf).value) == multiset(MatchAll(content, b, crlf).value)
    decreases |a|
  {
    SameElements(a, b);
    if a != [] {
      var i := WhereHeadIs(a, b);
      MatchAllWithout(content, a, crlf, 0);
      MatchAllWithout(content, b, crlf, i);
      SamePermutation(content, Without(a, 0), Without(b, i), crlf);
      SameHeads(content, a, b, crlf, i);
      SameWithHeads(MatchAll(content, a, crlf).value, MatchAll(content, b, crlf).value, i);
    }
  }

  function Without<T>(s: seq<T>, i: nat): seq<T>
    requires i < |s|
  {
    s[..i] + s[i + 1..]
  }

  lemma WhereHeadIs<T>(a: seq<T>, b: seq<T>) returns (i: nat)
    requires multiset(a) == multiset(b) && a != []
    ensures i < |b| && b[i] == a[0] && multiset(Without(a, 0)) == multiset(Without(b, i))
  {
    SameElements(a, b);
    assert a[0] in b;
    i :| 0 <= i < |b| && b[i] == a[0];
    RemoveAt(a, 0);
    RemoveAt(b, i);
  }

  lemma SameWithHeads<T>(a: seq<T>, b: seq<T>, i: nat)
    requires a != [] && i < |b| && a[0] == b[i] && multiset(Without(a, 0)) == multiset(Without(b, i))
    ensures multiset(a) == multiset(b)
  {
    RemoveAt(a, 0);
    RemoveAt(b, i);
  }

  lemma SameHeads(content: string, a: seq<EditOp>, b: seq<EditOp>, crlf: bool, i: nat)
    requires MatchAll(content, a, crlf).Ok? && MatchAll(content, b, crlf).Ok?
    requires a != [] && i < |b| && a[0] == b[i]
    ensures MatchAll(content, a, crlf).value != [] && i < |MatchAll(content, b, crlf).value|
    ensures MatchAll(content, a, crlf).value[0] == MatchAll(content, b, crlf).value[i]
  {
    MatchAllIs(content, a, crlf);
    MatchAllIs(content, b, crlf);
  }

  ghost predicate StrictlyByPos(p: seq<Match>) {
    forall i, j | 0 <= i < j < |p| :: p[i].pos < p[j].pos
  }

  lemma FirstsAgree(p: seq<Match>, q: seq<Match>)
    requires multiset(p) == multiset(q) && SortedByPos(q) && StrictlyByPos(p) && p != []
    ensures q != [] && q[0] == p[0]
  {
    SameElements(p, q);
    assert p[0] in q && q[0] in p;
  }

  lemma TailsAgree(p: seq<Match>, q: seq<Match>)
    requires multiset(p) == multiset(q) && p != [] && q != [] && p[0] == q[0]
    ensures multiset(p[1..]) == multiset(q[1..])
  {
    HeadAndTail(p);
    HeadAndTail(q);
    forall m ensures multiset(p[1..])[m] == multiset(q[1..])[m] {}
  }

  lemma HeadAndTail<T>(s: seq<T>)
    requires s != []
    ensures forall x :: multiset(s)[x] == multiset(s[1..])[x] + (if x == s[0] then 1 else 0)
  {
    assert s == [s[0]] + s[1..];
  }

  /** Non-empty matches that do not overlap can be sorted in one way only. */
  lemma {:induction false} OneSort(p: seq<Match>, q: seq<Match>)
    requires multiset(p) == multiset(q) && SortedByPos(q) && StrictlyByPos(p)
    ensures p == q
    decreases |p|
  {
    if p == [] {
      SameElements(p, q);
    } else {
      FirstsAgree(p, q);
      TailsAgree(p, q);
      OneSort(p[1..], q[1..]);
      assert p == [p[0]] + p[1..] && q == [q[0]] + q[1..];
    }
  }

  lemma StrictlySorted(p: seq<Match>)
    requires NoOverlap(p) && forall m | m in p :: m.len > 0
    ensures StrictlyByPos(p)
  {
    forall i, j | 0 <= i < j < |p| ensures p[i].pos < p[j].pos {
      NoOverlapAtAll(p, i, j);
      assert p[i] in p;
    }
  }

  lemma SortsAgree(p: seq<Match>, q: seq<Match>)
    requires multiset(p) == multiset(q) && SortedByPos(p) && SortedByPos(q)
    requires forall m | m in p :: m.len > 0
    ensures NoOverlap(p) || NoOverlap(q) ==> p == q
  {
    forall m | m in q ensures m.len > 0 { assert m in multiset(p); }
    if NoOverlap(p) { StrictlySorted(p); OneSort(p, q); }
    if NoOverlap(q) { StrictlySorted(q); OneSort(q, p); }
  }

  /** The sorted matches behind an outcome. */
  lemma SortBehind(bytes: string, edits: seq<EditOp>, r: Result<string>) returns (p: seq<Match>)
    requires edits != [] && Outcome(bytes, edits, r)
    requires MatchAll(Content(bytes), edits, HasCrlf(Body(bytes))).Ok?
    ensures Within(p, Content(bytes)) && r == Finish(bytes, p)
    ensures SortOf(MatchAll(Content(bytes), edits, HasCrlf(Body(bytes))).value, p)
    ensures forall m | m in p :: exists op :: op in edits && MatchOf(Content(bytes), op, HasCrlf(Body(bytes))) == Ok(m)
  {
    var content, crlf := Content(bytes), HasCrlf(Body(bytes));
    var ms := MatchAll(content, edits, crlf).value;
    p :| SortOf(ms, p) && Within(p, content) && r == Finish(bytes, p);
    MatchAllIs(content, edits, crlf);
    SameElements(ms, p);
    forall m | m in p ensures exists op :: op in edits && MatchOf(content, op, crlf) == Ok(m) {
      var i :| 0 <= i < |ms| && ms[i] == m;
      assert edits[i] in edits && MatchOf(content, edits[i], crlf) == Ok(m);
    }
  }

  lemma SameEditsMatchAlike(content: string, a: seq<EditOp>, b: seq<EditOp>, crlf: bool)
    requires multiset(a) == multiset(b)
    ensures MatchAll(content, a, crlf).Ok? <==> MatchAll(content, b, crlf).Ok?
  {
    MatchAllIs(content, a, crlf);
    MatchAllIs(content, b, crlf);
    SameElements(a, b);
  }

  /** In a file without visible text, two edits of blanks both match the empty
      text at its start, and the order decides the result. */
  lemma BlankEditsDependOnTheSort()
    ensures var edits := [EditOp("\t", "a"), EditOp(" ", "b")];
            Outcome("", edits, Ok("ab")) && Outcome("", edits, Ok("ba"))
  {
    var x, y := Match(0, 0, "a"), Match(0, 0, "b");
    TwoBlanksMatch(EditOp("\t", "a"), EditOp(" ", "b"), x, y);
    assert "a" + "b" == "ab" && "b" + "a" == "ba";
    EitherOutcome([EditOp("\t", "a"), EditOp(" ", "b")], x, y, "ab", "ba");
  }

  lemma TwoBlanksMatch(first: EditOp, second: EditOp, x: Match, y: Match)
    requires first == EditOp("\t", "a") && second == EditOp(" ", "b") && x == Match(0, 0, "a") && y == Match(0, 0, "b")
    ensures MatchAll("", [first, second], false) == Ok([x, y])
  {
    BlankEditMatches(first);
    BlankEditMatches(second);
    TwoMatched("", first, second, x, y);
  }

  lemma EitherOutcome(edits: seq<EditOp>, x: Match, y: Match, xy: string, yx: string)
    requires edits != [] && MatchAll("", edits, false) == Ok([x, y]) && x.pos == x.len == y.pos == y.len == 0
    requires xy == x.newText + y.newText && yx == y.newText + x.newText
    ensures Outcome("", edits, Ok(xy)) && Outcome("", edits, Ok(yx))
  {
    EitherOrder(x, y);
    TwoEmptyMatches(edits, [x, y], x, y);
    TwoEmptyMatches(edits, [x, y], y, x);
  }

  lemma EitherOrder(x: Match, y: Match)
    requires x.pos == y.pos
    ensures SortOf([x, y], [x, y]) && SortOf([x, y], [y, x])
  {
    assert multiset([x, y]) == multiset([y, x]);
  }

  lemma EmptyFile(content: string)
    ensures !HasBom("") && Body("") == "" && !HasCrlf("") && Content("") == "" && Rebuild("", content) == content
  {
    assert [] + content == content;
  }

  lemma TwoMatched(content: string, first: EditOp, second: EditOp, x: Match, y: Match)
    requires MatchOf(content, first, false) == Ok(x) && MatchOf(content, second, false) == Ok(y)
    ensures MatchAll(content, [first, second], false) == Ok([x, y])
  {
    assert [first, second][1..] == [second] && [second][1..] == [];
    assert MatchAll(content, [], false) == Ok([]);
    assert MatchAll(content, [second], false) == Ok([y]) by { assert [y] + [] == [y]; }
    assert [x] + [y] == [x, y];
  }

  lemma OneInsertion(y: Match)
    requires y.pos == y.len == 0
    ensures NoOverlap([y]) && Within([y], "") && Subst("", [y], 0) == y.newText
  {
    assert [y][1..] == [];
    assert "" + y.newText + "" == y.newText;
  }

  lemma TwoInsertions(x: Match, y: Match)
    requires x.pos == x.len == y.pos == y.len == 0
    ensures NoOverlap([x, y]) && Within([x, y], "") && Subst("", [x, y], 0) == x.newText + y.newText
  {
    OneInsertion(y);
    assert Clear([x, y], 1);
    assert [x, y][1..] == [y];
    assert "" + x.newText == x.newText;
  }

  lemma TwoEmptyMatches(edits: seq<EditOp>, ms: seq<Match>, x: Match, y: Match)
    requires edits != [] && MatchAll("", edits, false) == Ok(ms) && SortOf(ms, [x, y])
    requires x.pos == x.len == y.pos == y.len == 0
    ensures Outcome("", edits, Ok(x.newText + y.newText))
  {
    EmptyFile(x.newText + y.newText);
    TwoInsertions(x, y);
    assert Finish("", [x, y]) == Ok(x.newText + y.newText);
  }

  lemma BlankEditMatches(op: EditOp)
    requires |op.oldText| == 1 && Blank(op.oldText[0])
    ensures MatchOf("", op, false) == Ok(Match(0, 0, op.newText))
  {
    assert Strip(op.oldText) == [] by { StripEmpty(op.oldText); }
    assert Find("", op.oldText, 0) == None;
    assert Find("", "", 0) == Some(0) && Find("", "", 1) == None;
  }

  // ---- A no-op edit -----------------------------------------------------------------

  /** Rebuilding the unchanged content gives back the file exactly when it has no
      CR LF at all or every LF follows a CR. */
  lemma RebuildUnchanged(bytes: string)
    ensures Rebuild(bytes, Content(bytes)) == bytes <==> (SomeLfAfterCr(Body(bytes)) ==> EveryLfAfterCr(Body(bytes)))
  {
    var body := Body(bytes);
    HasCrlfMeans(body);
    var back := if HasCrlf(body) then ToCrlf(Content(bytes)) else Content(bytes);
    CrlfOfLf(body);
    BehindBom(bytes, back);
  }

  lemma BehindBom(bytes: string, back: string)
    ensures (if HasBom(bytes) then BOM else []) + back == bytes <==> back == Body(bytes)
  {
    if HasBom(bytes) {
      assert bytes == BOM + bytes[3..];
      assert (BOM + back)[3..] == back;
    } else {
      assert [] + back == back;
    }
  }

  /** The edit's newText is the text it matches. */
  ghost predicate PutsBack(content: string, op: EditOp, crlf: bool) {
    match MatchOf(content, op, crlf)
    case Err(_) => true
    case Ok(m) => m.pos + m.len <= |content| && content[m.pos..m.pos + m.len] == m.newText
  }

  /** Edits that put back what they match leave the file alone in exactly those
      cases; a file with mixed line endings is rewritten with CR LF throughout. */
  lemma NoOpEdit(bytes: string, edits: seq<EditOp>, r: Result<string>)
    requires edits != [] && Outcome(bytes, edits, r) && r.Ok?
    requires forall op | op in edits :: PutsBack(Content(bytes), op, HasCrlf(Body(bytes)))
    ensures r.value == bytes <==> (SomeLfAfterCr(Body(bytes)) ==> EveryLfAfterCr(Body(bytes)))
  {
    var p := SortBehind(bytes, edits, r);
    NoOpMatches(Content(bytes), HasCrlf(Body(bytes)), edits, p);
    NoOpFinish(bytes, p);
    RebuildUnchanged(bytes);
  }

  lemma NoOpMatches(content: string, crlf: bool, edits: seq<EditOp>, p: seq<Match>)
    requires forall op | op in edits :: PutsBack(content, op, crlf)
    requires forall m | m in p :: exists op :: op in edits && MatchOf(content, op, crlf) == Ok(m)
    ensures forall m | m in p :: m.pos + m.len <= |content| && content[m.pos..m.pos + m.len] == m.newText
  {
    forall m | m in p ensures m.pos + m.len <= |content| && content[m.pos..m.pos + m.len] == m.newText {
      var op :| op in edits && MatchOf(content, op, crlf) == Ok(m);
      assert PutsBack(content, op, crlf);
    }
  }

  lemma NoOpFinish(bytes: string, p: seq<Match>)
    requires Within(p, Content(bytes)) && NoOverlap(p)
    requires forall m | m in p :: m.pos + m.len <= |Content(bytes)| && Content(bytes)[m.pos..m.pos + m.len] == m.newText
    ensures Finish(bytes, p) == Ok(Rebuild(bytes, Content(bytes)))
  {
    SubstIdentity(Content(bytes), p, 0);
    assert Content(bytes)[0..] == Content(bytes);
  }

  /** Replacing "a" by itself in a file with one CR LF and one bare LF turns the
      bare LF into CR LF. */
  lemma NoOpRewritesMixedEndings()
    ensures Outcome("a\r\nb\n", [EditOp("a", "a")], Ok("a\r\nb\r\n"))
  {
    var bytes, op, m := "a\r\nb\n", EditOp("a", "a"), Match(0, 1, "a");
    MixedFile();
    MatchesFirstLetter();
    assert [op][1..] == [] && MatchAll("a\nb\n", [], true) == Ok([]) && [m] + [] == [m];
    assert MatchAll("a\nb\n", [op], true) == Ok([m]);
    assert "a\nb\n"[0..1] == "a";
    NoOpFinish(bytes, [m]);
    assert SortOf([m], [m]);
  }

  lemma MixedFile()
    ensures var bytes := "a\r\nb\n";
            && !HasBom(bytes) && HasCrlf(Body(bytes)) && Content(bytes) == "a\nb\n"
            && Rebuild(bytes, "a\nb\n") == "a\r\nb\r\n"
  {
    var bytes := "a\r\nb\n";
    assert bytes[1..3] == "\r\n" && OccursAt(bytes, "\r\n", 1);
    assert bytes[1..] == "\r\nb\n" && "\r\nb\n"[1..] == "\nb\n" && "\nb\n"[1..] == "b\n" && "b\n"[1..] == "\n";
    assert "\n"[1..] == "";
    assert ToLf("b\n") == "b\n";
    assert ToLf(bytes) == "a\nb\n";
    assert "a\nb\n"[1..] == "\nb\n";
    assert ToCrlf("b\n") == "b\r\n";
    assert ToCrlf("a\nb\n") == "a\r\nb\r\n";
  }

  lemma MatchesFirstLetter()
    ensures MatchOf("a\nb\n", EditOp("a", "a"), true) == Ok(Match(0, 1, "a"))
  {
    var s := "a\nb\n";
    assert "a"[1..] == "" && ToLf("a") == "a";
    assert s[0..1] == "a" && OccursAt(s, "a", 0);
    forall i: nat | i > 0 ensures !OccursAt(s, "a", i) {
      if i + 1 <= |s| { assert s[i..i + 1][0] == s[i]; }
    }
    assert Find(s, "a", 0) == Some(0) && Find(s, "a", 1).None?;
  }
}
