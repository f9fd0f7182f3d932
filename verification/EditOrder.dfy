/** When the result of an edit call depends on the order of its edits and on what
    the sort does with equal positions. */
module EditOrder {
  import opened Requests
  import opened Text
  import opened LineEndings
  import opened FuzzyMatch
  import opened EditEngine
  import opened EditTool

  // ---- The condition ------------------------------------------------------------

  predicate Apart(x: Match, y: Match) {
    x.pos + x.len <= y.pos || y.pos + y.len <= x.pos
  }

  /** The non-empty matches are clear of each other. */
  ghost predicate SolidsApart(ms: seq<Match>) {
    forall i, j | 0 <= i < j < |ms| && ms[i].len > 0 && ms[j].len > 0 :: Apart(ms[i], ms[j])
  }

  ghost predicate HasEmpty(ms: seq<Match>) {
    exists m :: m in ms && m.len == 0
  }

  ghost predicate EmptiesAtStart(ms: seq<Match>) {
    forall m | m in ms && m.len == 0 :: m.pos == 0
  }

  ghost predicate NoSolidAtStart(ms: seq<Match>) {
    forall m | m in ms && m.len > 0 :: m.pos > 0
  }

  /** The texts that the empty matches insert may change places. */
  ghost predicate EmptiesCommute(ms: seq<Match>) {
    forall x, y | x in ms && y in ms && x.len == 0 && y.len == 0 :: x.newText + y.newText == y.newText + x.newText
  }

  ghost predicate Settled(ms: seq<Match>) {
    SolidsApart(ms) && HasEmpty(ms) ==> NoSolidAtStart(ms) && EmptiesCommute(ms)
  }

  /** Every order of these edits, and every sort, gives the same result. */
  ghost predicate OneOutcome(bytes: string, edits: seq<EditOp>) {
    forall a, b, ra, rb |
      && multiset(a) == multiset(edits) && multiset(b) == multiset(edits)
      && Outcome(bytes, a, ra) && Outcome(bytes, b, rb) :: ra == rb
  }

  // ---- Permutations ---------------------------------------------------------------

  lemma {:induction false} Twice<T>(s: seq<T>, i: nat, j: nat)
    requires i < j < |s| && s[i] == s[j]
    ensures multiset(s)[s[i]] >= 2
  {
    HeadAndTail(s);
    if i == 0 {
      assert s[1..][j - 1] == s[0];
      assert s[0] in multiset(s[1..]);
    } else {
      Twice(s[1..], i - 1, j - 1);
    }
  }

  lemma {:induction false} TwoPlaces<T>(s: seq<T>, x: T) returns (i: nat, j: nat)
    requires multiset(s)[x] >= 2
    ensures i < j < |s| && s[i] == x && s[j] == x
  {
    HeadAndTail(s);
    if s[0] == x {
      assert x in multiset(s[1..]);
      var k :| 0 <= k < |s[1..]| && s[1..][k] == x;
      i, j := 0, k + 1;
    } else {
      i, j := TwoPlaces(s[1..], x);
      i, j := i + 1, j + 1;
    }
  }

  lemma ApartInAnyOrder(a: seq<Match>, b: seq<Match>)
    requires multiset(a) == multiset(b) && SolidsApart(a)
    ensures SolidsApart(b)
  {
    SameElements(a, b);
    forall i, j | 0 <= i < j < |b| && b[i].len > 0 && b[j].len > 0 ensures Apart(b[i], b[j]) {
      assert b[i] in a && b[j] in a;
      if b[i] == b[j] {
        Twice(b, i, j);
        var k, l := TwoPlaces(a, b[i]);
        assert Apart(a[k], a[l]);
      } else {
        var k :| 0 <= k < |a| && a[k] == b[i];
        var l :| 0 <= l < |a| && a[l] == b[j];
        assert if k < l then Apart(a[k], a[l]) else Apart(a[l], a[k]);
      }
    }
  }

  // ---- Empty and non-empty matches ------------------------------------------------

  function Empties(ms: seq<Match>): (r: seq<Match>)
    ensures forall m | m in r :: m in ms && m.len == 0
  {
    if ms == [] then [] else (if ms[0].len == 0 then [ms[0]] else []) + Empties(ms[1..])
  }

  function Solids(ms: seq<Match>): (r: seq<Match>)
    ensures forall m | m in r :: m in ms && m.len > 0
  {
    if ms == [] then [] else (if ms[0].len > 0 then [ms[0]] else []) + Solids(ms[1..])
  }

  lemma {:induction false} CountParts(ms: seq<Match>, m: Match)
    ensures multiset(Empties(ms))[m] == if m.len == 0 then multiset(ms)[m] else 0
    ensures multiset(Solids(ms))[m] == if m.len > 0 then multiset(ms)[m] else 0
  {
    if ms != [] {
      CountParts(ms[1..], m);
      HeadAndTail(ms);
    }
  }

  lemma SameParts(a: seq<Match>, b: seq<Match>)
    requires multiset(a) == multiset(b)
    ensures multiset(Empties(a)) == multiset(Empties(b)) && multiset(Solids(a)) == multiset(Solids(b))
  {
    forall m ensures multiset(Empties(a))[m] == multiset(Empties(b))[m]
                     && multiset(Solids(a))[m] == multiset(Solids(b))[m] {
      CountParts(a, m);
      CountParts(b, m);
    }
  }

  lemma PartsMakeWhole(ms: seq<Match>)
    ensures multiset(Empties(ms)) + multiset(Solids(ms)) == multiset(ms)
  {
    forall m ensures (multiset(Empties(ms)) + multiset(Solids(ms)))[m] == multiset(ms)[m] { CountParts(ms, m); }
  }

  lemma {:induction false} AllSolid(ms: seq<Match>)
    requires forall m | m in ms :: m.len > 0
    ensures Empties(ms) == [] && Solids(ms) == ms
  {
    if ms != [] {
      assert ms[0] in ms;
      AllSolid(ms[1..]);
      assert ms == [ms[0]] + ms[1..];
    }
  }

  /** Sorted, the empty matches come first when no other match starts with them. */
  lemma {:induction false} EmptiesComeFirst(q: seq<Match>)
    requires SortedByPos(q) && EmptiesAtStart(q) && NoSolidAtStart(q)
    ensures q == Empties(q) + Solids(q)
  {
    if q != [] {
      assert q[0] in q;
      if q[0].len == 0 {
        RestIsOrdered(q);
        EmptiesComeFirst(q[1..]);
        EmptyInFront(q, Empties(q[1..]), Solids(q[1..]));
      } else {
        SolidFirst(q);
        AllSolid(q);
      }
    }
  }

  lemma RestIsOrdered(q: seq<Match>)
    requires q != [] && SortedByPos(q) && EmptiesAtStart(q) && NoSolidAtStart(q)
    ensures SortedByPos(q[1..]) && EmptiesAtStart(q[1..]) && NoSolidAtStart(q[1..])
  {
    forall m | m in q[1..] ensures m in q {}
  }

  lemma EmptyInFront(q: seq<Match>, es: seq<Match>, ns: seq<Match>)
    requires q != [] && q[0].len == 0 && q[1..] == es + ns && es == Empties(q[1..]) && ns == Solids(q[1..])
    ensures q == Empties(q) + Solids(q)
  {
    assert Empties(q) == [q[0]] + es && Solids(q) == [] + ns == ns;
    Assoc([q[0]], es, ns);
    assert q == [q[0]] + q[1..];
  }

  lemma SolidFirst(q: seq<Match>)
    requires q != [] && SortedByPos(q) && EmptiesAtStart(q) && q[0].pos > 0
    ensures forall m | m in q :: m.len > 0
  {
    forall m | m in q ensures m.len > 0 {
      var i :| 0 <= i < |q| && q[i] == m;
      assert q[0].pos <= q[i].pos;
    }
  }

  // ---- Overlap ----------------------------------------------------------------------

  lemma ClearMeansApart(q: seq<Match>)
    requires NoOverlap(q)
    ensures SolidsApart(q)
  {
    forall i, j | 0 <= i < j < |q| && q[i].len > 0 && q[j].len > 0 ensures Apart(q[i], q[j]) {
      NoOverlapAtAll(q, i, j);
    }
  }

  lemma ApartMeansClear(q: seq<Match>)
    requires SolidsApart(q) && SortedByPos(q) && EmptiesAtStart(q)
    requires HasEmpty(q) ==> NoSolidAtStart(q)
    ensures NoOverlap(q)
  {
    forall i | 0 < i < |q| ensures Clear(q, i) {
      assert q[i - 1] in q && q[i] in q && q[i - 1].pos <= q[i].pos;
      if q[i - 1].len > 0 && q[i].len > 0 {
        assert Apart(q[i - 1], q[i]);
      }
    }
  }

  lemma EmptiesInFront(es: seq<Match>, ns: seq<Match>)
    requires forall m | m in es :: m.pos == 0 && m.len == 0
    requires NoOverlap(ns)
    ensures NoOverlap(es + ns)
  {
    var q := es + ns;
    forall i | 0 < i < |q| ensures Clear(q, i) {
      if i <= |es| {
        assert q[i - 1] == es[i - 1] && es[i - 1] in es;
      } else {
        assert Clear(ns, i - |es|);
      }
    }
  }

  // ---- Insertion ---------------------------------------------------------------------

  function Flat(es: seq<Match>): string {
    if es == [] then [] else es[0].newText + Flat(es[1..])
  }

  lemma {:induction false} FlatAdds(a: seq<Match>, b: seq<Match>)
    ensures Flat(a + b) == Flat(a) + Flat(b)
  {
    if a == [] {
      assert a + b == b;
    } else {
      FlatAdds(a[1..], b);
      assert (a + b)[1..] == a[1..] + b;
      Assoc(a[0].newText, Flat(a[1..]), Flat(b));
    }
  }

  lemma {:induction false} EmptiesInsert(s: string, es: seq<Match>, ns: seq<Match>)
    requires forall m | m in es :: m.pos == 0 && m.len == 0
    requires NoOverlap(ns) && Within(ns, s) && NoOverlap(es + ns) && Within(es + ns, s)
    ensures Subst(s, es + ns, 0) == Flat(es) + Subst(s, ns, 0)
  {
    if es == [] {
      assert es + ns == ns && [] + Subst(s, ns, 0) == Subst(s, ns, 0);
    } else {
      assert es[0] in es && (es + ns)[0] == es[0] && (es + ns)[1..] == es[1..] + ns;
      EmptiesInFront(es[1..], ns);
      forall m | m in es[1..] + ns ensures m.pos + m.len <= |s| { assert m in es + ns; }
      EmptiesInsert(s, es[1..], ns);
      assert s[0..0] + es[0].newText == es[0].newText;
      Assoc(es[0].newText, Flat(es[1..]), Subst(s, ns, 0));
    }
  }

  /** A text that commutes with each of these commutes with them together. */
  lemma {:induction false} CommutesWithAll(x: Match, es: seq<Match>)
    requires forall y | y in es :: x.newText + y.newText == y.newText + x.newText
    ensures x.newText + Flat(es) == Flat(es) + x.newText
  {
    if es != [] {
      var y, rest := es[0].newText, Flat(es[1..]);
      assert es[0] in es;
      CommutesWithAll(x, es[1..]);
      Assoc(x.newText, y, rest);
      Assoc(y, x.newText, rest);
      Assoc(y, rest, x.newText);
    }
  }

  lemma {:induction false} CommutingOrders(a: seq<Match>, b: seq<Match>)
    requires multiset(a) == multiset(b)
    requires forall x, y | x in a && y in a :: x.newText + y.newText == y.newText + x.newText
    ensures Flat(a) == Flat(b)
  {
    SameElements(a, b);
    if a != [] {
      var i := WhereHeadIs(a, b);
      var front, back := b[..i], b[i + 1..];
      assert Without(a, 0) == a[1..] && Without(b, i) == front + back;
      CommutingOrders(a[1..], front + back);
      forall y | y in front ensures y in a { assert y in b; }
      assert b == front + ([a[0]] + back);
      MoveToFront(a[0], front, back);
    }
  }

  lemma MoveToFront(x: Match, front: seq<Match>, back: seq<Match>)
    requires forall y | y in front :: x.newText + y.newText == y.newText + x.newText
    ensures Flat(front + ([x] + back)) == x.newText + Flat(front + back)
  {
    CommutesWithAll(x, front);
    FlatAdds(front, [x] + back);
    FlatAdds(front, back);
    assert ([x] + back)[1..] == back;
    Assoc(Flat(front), x.newText, Flat(back));
    Assoc(x.newText, Flat(front), Flat(back));
  }

  // ---- Settled: all sorts agree ---------------------------------------------------------

  lemma SettledSortsAgree(s: string, ms: seq<Match>, p: seq<Match>, q: seq<Match>)
    requires EmptiesAtStart(ms) && Settled(ms) && SortOf(ms, p) && SortOf(ms, q)
    requires Within(p, s) && Within(q, s)
    ensures NoOverlap(p) <==> NoOverlap(q)
    ensures NoOverlap(p) && NoOverlap(q) ==> Subst(s, p, 0) == Subst(s, q, 0)
  {
    ClearExactlyWhenApart(ms, p);
    ClearExactlyWhenApart(ms, q);
    if SolidsApart(ms) {
      if HasEmpty(ms) {
        InsertionsAgree(s, ms, p, q);
      } else {
        SameElements(ms, p);
        SortsAgree(p, q);
      }
    }
  }

  lemma ClearExactlyWhenApart(ms: seq<Match>, p: seq<Match>)
    requires EmptiesAtStart(ms) && Settled(ms) && SortOf(ms, p)
    ensures NoOverlap(p) <==> SolidsApart(ms)
  {
    SameElements(ms, p);
    if SolidsApart(ms) {
      ApartInAnyOrder(ms, p);
      ApartMeansClear(p);
    }
    if NoOverlap(p) {
      ClearMeansApart(p);
      ApartInAnyOrder(p, ms);
    }
  }

  lemma InsertionsAgree(s: string, ms: seq<Match>, p: seq<Match>, q: seq<Match>)
    requires EmptiesAtStart(ms) && NoSolidAtStart(ms) && EmptiesCommute(ms)
    requires SortOf(ms, p) && SortOf(ms, q) && Within(p, s) && Within(q, s) && NoOverlap(p) && NoOverlap(q)
    ensures Subst(s, p, 0) == Subst(s, q, 0)
  {
    SameElements(ms, p);
    SameElements(ms, q);
    EmptiesComeFirst(p);
    EmptiesComeFirst(q);
    SameParts(p, q);
    SolidsOf(s, p);
    SolidsOf(s, q);
    SortsAgree(Solids(p), Solids(q));
    EmptiesInsert(s, Empties(p), Solids(p));
    EmptiesInsert(s, Empties(q), Solids(q));
    CommutingOrders(Empties(p), Empties(q));
  }

  lemma SolidsOf(s: string, p: seq<Match>)
    requires SortedByPos(p) && Within(p, s) && NoOverlap(p) && p == Empties(p) + Solids(p)
    ensures SortedByPos(Solids(p)) && Within(Solids(p), s) && NoOverlap(Solids(p))
  {
    RestOf(s, p, |Empties(p)|);
    RestIs(p, Empties(p), Solids(p));
  }

  lemma RestIs(p: seq<Match>, a: seq<Match>, b: seq<Match>)
    requires p == a + b
    ensures p[|a|..] == b
  {
  }

  lemma RestOf(s: string, p: seq<Match>, k: nat)
    requires SortedByPos(p) && Within(p, s) && NoOverlap(p) && k <= |p|
    ensures SortedByPos(p[k..]) && Within(p[k..], s) && NoOverlap(p[k..])
  {
    SuffixMatches(p, s, k);
  }

  // ---- Not settled: two sorts disagree ---------------------------------------------------

  /** The two sorts, or what they produce, differ. */
  ghost predicate Disagree(s: string, p: seq<Match>, q: seq<Match>)
    requires Within(p, s) && Within(q, s)
  {
    (NoOverlap(p) <==> !NoOverlap(q)) || (NoOverlap(p) && NoOverlap(q) && Subst(s, p, 0) != Subst(s, q, 0))
  }

  lemma SortInFront(ms: seq<Match>, es: seq<Match>, s: string) returns (ns: seq<Match>)
    requires EmptiesAtStart(ms) && SolidsApart(ms) && Within(ms, s)
    requires multiset(es) == multiset(Empties(ms))
    ensures SortOf(Solids(ms), ns) && NoOverlap(ns) && Within(ns, s) && forall m | m in ns :: m in ms && m.len > 0
    ensures SortOf(ms, es + ns) && NoOverlap(es + ns) && Within(es + ns, s)
    ensures forall m | m in es :: m in ms && m.pos == 0 && m.len == 0
  {
    ns := Sort(Solids(ms));
    SortSorts(Solids(ms));
    SameElements(Solids(ms), ns);
    SameElements(Empties(ms), es);
    PartsMakeWhole(ms);
    assert multiset(es + ns) == multiset(es) + multiset(ns);
    SolidsStayApart(ms);
    ApartInAnyOrder(Solids(ms), ns);
    ApartMeansClear(ns);
    EmptiesInFront(es, ns);
    forall m | m in es + ns ensures m in ms { assert m in es || m in ns; }
    InFrontIsSorted(es, ns);
  }

  lemma InFrontIsSorted(es: seq<Match>, ns: seq<Match>)
    requires SortedByPos(ns) && forall m | m in es :: m.pos == 0
    ensures SortedByPos(es + ns)
  {
    var q := es + ns;
    forall i, j | 0 <= i < j < |q| ensures q[i].pos <= q[j].pos {
      if i < |es| { assert q[i] in es; } else { assert q[i] == ns[i - |es|] && q[j] == ns[j - |es|]; }
    }
  }

  lemma {:induction false} SolidsStayApart(ms: seq<Match>)
    requires SolidsApart(ms)
    ensures SolidsApart(Solids(ms))
  {
    if ms != [] {
      forall i, j | 0 <= i < j < |ms[1..]| && ms[1..][i].len > 0 && ms[1..][j].len > 0
        ensures Apart(ms[1..][i], ms[1..][j])
      {
        assert Apart(ms[i + 1], ms[j + 1]);
      }
      SolidsStayApart(ms[1..]);
      var rest := Solids(ms[1..]);
      if ms[0].len > 0 {
        assert Solids(ms) == [ms[0]] + rest;
        forall j | 0 <= j < |rest| ensures Apart(ms[0], rest[j]) {
          assert rest[j] in ms[1..];
          var k :| 0 <= k < |ms[1..]| && ms[1..][k] == rest[j];
          assert Apart(ms[0], ms[k + 1]);
        }
      }
    }
  }

  /** A non-empty match that starts with the empty ones may be sorted in front of
      them, and then overlaps. */
  lemma SolidInFront(s: string, ms: seq<Match>) returns (p: seq<Match>, q: seq<Match>)
    requires EmptiesAtStart(ms) && SolidsApart(ms) && HasEmpty(ms) && !NoSolidAtStart(ms) && Within(ms, s)
    ensures SortOf(ms, p) && SortOf(ms, q) && Within(p, s) && Within(q, s)
    ensures NoOverlap(p) && !NoOverlap(q)
  {
    var es := Empties(ms);
    var ns := SortInFront(ms, es, s);
    p := es + ns;
    BothStart(ms, ns);
    q := [ns[0]] + (es + ns[1..]);
    assert ns == [ns[0]] + ns[1..];
    MovedToFront(es, ns);
    StillSorted(ns[0], es, ns[1..]);
    SameElements(p, q);
    assert q[1] == es[0] && es[0] in es;
    assert !Clear(q, 1);
  }

  lemma BothStart(ms: seq<Match>, ns: seq<Match>)
    requires SortOf(Solids(ms), ns) && HasEmpty(ms) && !NoSolidAtStart(ms)
    ensures Empties(ms) != [] && ns != [] && ns[0].pos == 0 && ns[0].len > 0
  {
    var e :| e in ms && e.len == 0;
    InEmpties(ms, e);
    var x :| x in ms && x.len > 0 && x.pos == 0;
    InSolids(ms, x);
    SameElements(Solids(ms), ns);
    var k :| 0 <= k < |ns| && ns[k] == x;
    assert ns[0].pos <= ns[k].pos && ns[0] in ns;
  }

  lemma MovedToFront(es: seq<Match>, ns: seq<Match>)
    requires ns != []
    ensures multiset([ns[0]] + (es + ns[1..])) == multiset(es + ns)
  {
    assert es + ns == es + ([ns[0]] + ns[1..]);
    assert multiset([ns[0]] + ns[1..]) == multiset{ns[0]} + multiset(ns[1..]);
  }

  lemma StillSorted(x: Match, es: seq<Match>, ns: seq<Match>)
    requires x.pos == 0 && SortedByPos([x] + ns) && forall m | m in es :: m.pos == 0
    ensures SortedByPos([x] + (es + ns))
  {
    forall i, j | 0 <= i < j < |ns| ensures ns[i].pos <= ns[j].pos {
      assert ([x] + ns)[i + 1] == ns[i] && ([x] + ns)[j + 1] == ns[j];
    }
    InFrontIsSorted(es, ns);
    var rest := es + ns;
    forall i, j | 0 <= i < j < |[x] + rest| ensures ([x] + rest)[i].pos <= ([x] + rest)[j].pos {
      if i > 0 { assert rest[i - 1].pos <= rest[j - 1].pos; }
    }
  }

  lemma InEmpties(ms: seq<Match>, m: Match)
    requires m in ms && m.len == 0
    ensures m in Empties(ms)
  {
    CountParts(ms, m);
    assert m in multiset(Empties(ms));
  }

  lemma InSolids(ms: seq<Match>, m: Match)
    requires m in ms && m.len > 0
    ensures m in Solids(ms)
  {
    CountParts(ms, m);
    assert m in multiset(Solids(ms));
  }

  /** Two elements of a list, taken out of it. */
  lemma TakeTwo<T>(s: seq<T>, x: T, y: T) returns (rest: seq<T>)
    requires x in s && y in s && x != y
    ensures multiset([x, y] + rest) == multiset(s) && multiset([y, x] + rest) == multiset(s)
  {
    var t := TakeOut(s, x);
    assert y in multiset(t);
    rest := TakeOut(t, y);
    TwoInFront(x, y, rest);
    TwoInFront(y, x, rest);
  }

  lemma TakeOut<T>(s: seq<T>, x: T) returns (rest: seq<T>)
    requires x in s
    ensures multiset(s) == multiset(rest) + multiset{x}
    ensures forall y | y in s && y != x :: y in multiset(rest)
  {
    var i :| 0 <= i < |s| && s[i] == x;
    rest := Without(s, i);
    RemoveAt(s, i);
    forall y | y in s && y != x ensures y in multiset(rest) { assert y in multiset(s); }
  }

  lemma TwoInFront<T>(x: T, y: T, rest: seq<T>)
    ensures multiset([x, y] + rest) == multiset(rest) + multiset{y} + multiset{x}
  {
    assert [x, y] + rest == [x] + ([y] + rest);
  }

  lemma FlatOfTwo(x: Match, y: Match, rest: seq<Match>)
    ensures Flat([x, y] + rest) == (x.newText + y.newText) + Flat(rest)
  {
    FlatAdds([x, y], rest);
    assert [x, y][1..] == [y] && [y][1..] == [];
    assert y.newText + [] == y.newText;
  }

  lemma DifferentFronts(a: string, b: string, t: string, u: string)
    requires |a| == |b| && a != b
    ensures (a + t) + u != (b + t) + u
  {
    assert ((a + t) + u)[..|a|] == a && ((b + t) + u)[..|b|] == b;
  }

  /** Two inserted texts that do not commute come out in either order. */
  lemma InsertionsInEitherOrder(s: string, ms: seq<Match>, x: Match, y: Match) returns (p: seq<Match>, q: seq<Match>)
    requires EmptiesAtStart(ms) && SolidsApart(ms) && Within(ms, s)
    requires x in ms && y in ms && x.len == 0 && y.len == 0
    requires x.newText + y.newText != y.newText + x.newText
    ensures SortOf(ms, p) && SortOf(ms, q) && Within(p, s) && Within(q, s)
    ensures NoOverlap(p) && NoOverlap(q) && Subst(s, p, 0) != Subst(s, q, 0)
  {
    InEmpties(ms, x);
    InEmpties(ms, y);
    var rest := TakeTwo(Empties(ms), x, y);
    var ns := SortInFront(ms, [x, y] + rest, s);
    var ns' := SortInFront(ms, [y, x] + rest, s);
    p, q := [x, y] + rest + ns, [y, x] + rest + ns';
    SortsAgree(ns, ns');
    EmptiesInsert(s, [x, y] + rest, ns);
    EmptiesInsert(s, [y, x] + rest, ns);
    FlatOfTwo(x, y, rest);
    FlatOfTwo(y, x, rest);
    DifferentFronts(x.newText + y.newText, y.newText + x.newText, Flat(rest), Subst(s, ns, 0));
  }

  lemma UnsettledSortsDisagree(s: string, ms: seq<Match>) returns (p: seq<Match>, q: seq<Match>)
    requires EmptiesAtStart(ms) && !Settled(ms) && Within(ms, s)
    ensures SortOf(ms, p) && SortOf(ms, q) && Within(p, s) && Within(q, s) && Disagree(s, p, q)
  {
    if !NoSolidAtStart(ms) {
      p, q := SolidInFront(s, ms);
    } else {
      var x, y :| x in ms && y in ms && x.len == 0 && y.len == 0
                  && x.newText + y.newText != y.newText + x.newText;
      p, q := InsertionsInEitherOrder(s, ms, x, y);
    }
  }

  // ---- The edit call ------------------------------------------------------------------------

  lemma RebuildIsInjective(bytes: string, u: string, v: string)
    requires Rebuild(bytes, u) == Rebuild(bytes, v)
    ensures u == v
  {
    var crlf := HasCrlf(Body(bytes));
    var u', v' := if crlf then ToCrlf(u) else u, if crlf then ToCrlf(v) else v;
    var head: string := if HasBom(bytes) then BOM else [];
    assert (head + u')[|head|..] == u' && (head + v')[|head|..] == v';
    LfOfCrlf(u);
    LfOfCrlf(v);
  }

  lemma EmptyMatchesAtStart(content: string, edits: seq<EditOp>, crlf: bool)
    requires MatchAll(content, edits, crlf).Ok?
    ensures EmptiesAtStart(MatchAll(content, edits, crlf).value)
  {
    MatchAllIs(content, edits, crlf);
    var ms := MatchAll(content, edits, crlf).value;
    forall m | m in ms && m.len == 0 ensures m.pos == 0 {
      var i :| 0 <= i < |ms| && ms[i] == m;
      LocalisedNonEmpty(edits[i].oldText);
      EmptyMatchIsAtStart(content, Localised(edits[i].oldText, crlf));
    }
  }

  /** Any order of the edits finds the same matches, so it has the same outcomes. */
  lemma OutcomeBehind(bytes: string, edits: seq<EditOp>, ms: seq<Match>, a: seq<EditOp>, r: Result<string>)
    returns (p: seq<Match>)
    requires edits != [] && MatchAll(Content(bytes), edits, HasCrlf(Body(bytes))) == Ok(ms)
    requires multiset(a) == multiset(edits) && Outcome(bytes, a, r)
    ensures SortOf(ms, p) && Within(p, Content(bytes)) && r == Finish(bytes, p)
  {
    SameElements(a, edits);
    SameEditsMatchAlike(Content(bytes), a, edits, HasCrlf(Body(bytes)));
    SamePermutation(Content(bytes), a, edits, HasCrlf(Body(bytes)));
    p := SortBehind(bytes, a, r);
  }

  lemma OutcomeOf(bytes: string, edits: seq<EditOp>, ms: seq<Match>, p: seq<Match>)
    requires edits != [] && MatchAll(Content(bytes), edits, HasCrlf(Body(bytes))) == Ok(ms)
    requires SortOf(ms, p) && Within(p, Content(bytes))
    ensures Outcome(bytes, edits, Finish(bytes, p))
  {
  }

  /** For located edits, the result is the same for every order of the edits and
      every sort if and only if the matches are settled: the non-empty ones
      overlap, or none is empty, or none of the non-empty ones starts with the
      empty ones and the inserted texts commute. */
  lemma OneOutcomeIff(bytes: string, edits: seq<EditOp>, ms: seq<Match>)
    requires edits != [] && MatchAll(Content(bytes), edits, HasCrlf(Body(bytes))) == Ok(ms)
    ensures OneOutcome(bytes, edits) <==> Settled(ms)
  {
    var content := Content(bytes);
    EmptyMatchesAtStart(content, edits, HasCrlf(Body(bytes)));
    MatchAllWithin(content, edits, HasCrlf(Body(bytes)));
    if Settled(ms) {
      SettledHasOneOutcome(bytes, edits, ms);
    } else {
      var p, q := UnsettledSortsDisagree(content, ms);
      OutcomeOf(bytes, edits, ms, p);
      OutcomeOf(bytes, edits, ms, q);
      if Finish(bytes, p) == Finish(bytes, q) {
        RebuildIsInjective(bytes, Subst(content, p, 0), Subst(content, q, 0));
      }
    }
  }

  lemma SettledHasOneOutcome(bytes: string, edits: seq<EditOp>, ms: seq<Match>)
    requires edits != [] && MatchAll(Content(bytes), edits, HasCrlf(Body(bytes))) == Ok(ms)
    requires Settled(ms) && EmptiesAtStart(ms)
    ensures OneOutcome(bytes, edits)
  {
    forall a, b, ra, rb |
      && multiset(a) == multiset(edits) && multiset(b) == multiset(edits)
      && Outcome(bytes, a, ra) && Outcome(bytes, b, rb)
      ensures ra == rb
    {
      var p := OutcomeBehind(bytes, edits, ms, a, ra);
      var q := OutcomeBehind(bytes, edits, ms, b, rb);
      SettledSortsAgree(Content(bytes), ms, p, q);
    }
  }

  /** Non-empty matches that overlap are always refused. */
  lemma OverlapIsRefused(bytes: string, edits: seq<EditOp>, ms: seq<Match>, r: Result<string>)
    requires edits != [] && MatchAll(Content(bytes), edits, HasCrlf(Body(bytes))) == Ok(ms)
    requires Outcome(bytes, edits, r) && !SolidsApart(ms)
    ensures r == Err(Overlapping)
  {
    var p := SortBehind(bytes, edits, r);
    if NoOverlap(p) {
      ClearMeansApart(p);
      ApartInAnyOrder(p, ms);
    }
  }

  /** Listing the same edits in another order succeeds in the same cases and
      writes the same bytes, when located matches are settled. */
  lemma OrderDoesNotMatter(bytes: string, a: seq<EditOp>, b: seq<EditOp>,
                           ra: Result<string>, rb: Result<string>)
    requires multiset(a) == multiset(b)
    requires Outcome(bytes, a, ra) && Outcome(bytes, b, rb)
    requires var all := MatchAll(Content(bytes), a, HasCrlf(Body(bytes))); all.Ok? ==> Settled(all.value)
    ensures ra.Ok? <==> rb.Ok?
    ensures ra.Ok? ==> ra == rb
  {
    var content, crlf := Content(bytes), HasCrlf(Body(bytes));
    SameElements(a, b);
    SameEditsMatchAlike(content, a, b, crlf);
    if a != [] && MatchAll(content, a, crlf).Ok? {
      OneOutcomeIff(bytes, a, MatchAll(content, a, crlf).value);
    }
  }

  /** Edits that name something visible, or a file that shows something, are
      always settled. */
  lemma VisibleEditsAreSettled(content: string, edits: seq<EditOp>, crlf: bool)
    requires MatchAll(content, edits, crlf).Ok? && forall op | op in edits :: NamesText(content, op, crlf)
    ensures Settled(MatchAll(content, edits, crlf).value)
  {
    MatchAllIs(content, edits, crlf);
    var ms := MatchAll(content, edits, crlf).value;
    forall m | m in ms ensures m.len > 0 {
      var i :| 0 <= i < |ms| && ms[i] == m;
      VisibleEditsMatchSomething(content, edits[i], crlf);
    }
  }

  /** In a file of blanks even success depends on the sort: one edit matches its
      first byte, the other the empty text in front of it. */
  lemma SuccessDependsOnTheSort()
    ensures var edits := [EditOp("\t", "x"), EditOp("  ", "y")];
            Outcome("\t ", edits, Ok("yx ")) && Outcome("\t ", edits, Err(Overlapping))
  {
    var first, second := EditOp("\t", "x"), EditOp("  ", "y");
    var x, y := Match(0, 1, "x"), Match(0, 0, "y");
    TabAndBlank();
    BlankFile("yx ");
    TwoMatched("\t ", first, second, x, y);
    EitherOrder(x, y);
    assert !Clear([x, y], 1);
    OutcomeOf("\t ", [first, second], [x, y], [x, y]);
    InsertThenReplace(x, y);
    OutcomeOf("\t ", [first, second], [x, y], [y, x]);
  }

  lemma BlankFile(content: string)
    ensures !HasBom("\t ") && Body("\t ") == "\t " && !HasCrlf("\t ") && Content("\t ") == "\t "
    ensures Rebuild("\t ", content) == content
  {
    assert "\t "[0..2][0] != "\r\n"[0];
    assert !OccursAt("\t ", "\r\n", 0) && !HasCrlf("\t ");
    assert [] + content == content;
  }

  lemma TabAndBlank()
    ensures MatchOf("\t ", EditOp("\t", "x"), false) == Ok(Match(0, 1, "x"))
    ensures MatchOf("\t ", EditOp("  ", "y"), false) == Ok(Match(0, 0, "y"))
  {
    assert "\t "[0..1] == "\t" && "\t "[1..2] == " ";
    assert !OccursAt("\t ", "\t", 1);
    assert Find("\t ", "\t", 0) == Some(0) && Find("\t ", "\t", 2).None?;
    assert Find("\t ", "\t", 1).None?;
    assert "\t "[0..2][0] != "  "[0];
    assert Find("\t ", "  ", 0).None?;
    StripEmpty("\t ");
    StripEmpty("  ");
    assert Find("", "", 0) == Some(0) && Find("", "", 1).None?;
    assert Strip("\t ") == "" && Strip("  ") == "";
    assert LocateFuzzy("\t ", "  ").Ok?;
    assert Locate("\t ", "  ").Ok?;
    EmptyMatchExactly("\t ", "  ");
    EmptyMatchIsAtStart("\t ", "  ");
  }

  lemma InsertThenReplace(x: Match, y: Match)
    requires x == Match(0, 1, "x") && y == Match(0, 0, "y")
    ensures Within([y, x], "\t ") && NoOverlap([y, x]) && Subst("\t ", [y, x], 0) == "yx "
  {
    ReplaceFirst(x);
    assert Clear([y, x], 1);
    EmptiesInsert("\t ", [y], [x]);
    assert [y] + [x] == [y, x] && [y][1..] == [];
    assert "y" + [] == "y" && "y" + "x " == "yx ";
  }

  lemma ReplaceFirst(x: Match)
    requires x == Match(0, 1, "x")
    ensures NoOverlap([x]) && Within([x], "\t ") && Subst("\t ", [x], 0) == "x "
  {
    var s := "\t ";
    assert [x][1..] == [] && Subst(s, [], 1) == s[1..] == " ";
    assert s[0..0] + "x" == "x" && "x" + " " == "x ";
  }
}
