/** Matching with trailing blanks ignored: the stripped text and the map from its
    positions back into the original. */
module FuzzyMatch {
  import opened Requests
  import opened Text

  predicate Blank(c: char) {
    c == ' ' || c == '\t'
  }

  predicate AllBlank(s: string) {
    forall i | 0 <= i < |s| :: Blank(s[i])
  }

  /** Text without the blanks at the end of each line. */
  function Strip(s: string): string {
    if s == [] then []
    else var rest := Strip(s[1..]);
         if Blank(s[0]) && (rest == [] || rest[0] == '\n') then rest else [s[0]] + rest
  }

  /** Where each character of Strip(s) stands in the original (which begins at
      absolute position `base`), with the end position appended. */
  function PosMap(s: string, base: nat): seq<nat> {
    if Strip(s) == [] then [base]
    else if Strip(s) == Strip(s[1..]) then PosMap(s[1..], base + 1)
    else [base] + PosMap(s[1..], base + 1)
  }

  // ---- Strip ------------------------------------------------------------------

  lemma {:induction false} StripBlanks(b: string, v: string)
    requires AllBlank(b) && (v == [] || v[0] == '\n')
    ensures Strip(b + v) == Strip(v)
  {
    if b == [] {
      assert b + v == v;
    } else {
      StripBlanks(b[1..], v);
      assert (b + v)[1..] == b[1..] + v;
    }
  }

  /** No line of a stripped text ends in a blank. */
  lemma {:induction false} StripLeavesNoBlankEnd(s: string, i: nat)
    requires i < |Strip(s)| && Blank(Strip(s)[i])
    ensures i + 1 < |Strip(s)| && Strip(s)[i + 1] != '\n'
  {
    if Strip(s) == Strip(s[1..]) {
      StripLeavesNoBlankEnd(s[1..], i);
    } else if i > 0 {
      StripLeavesNoBlankEnd(s[1..], i - 1);
    }
  }

  /** A run without line feed that ends in a non-blank is kept as it is. */
  lemma {:induction false} StripKeeps(u: string, v: string)
    requires u != [] ==> !Blank(u[|u| - 1])
    requires forall i | 0 <= i < |u| :: u[i] != '\n'
    ensures Strip(u + v) == u + Strip(v)
  {
    if u == [] {
      assert u + v == v;
    } else {
      StripKeeps(u[1..], v);
      assert (u + v)[1..] == u[1..] + v;
      assert u == [u[0]] + u[1..];
      Assoc([u[0]], u[1..], Strip(v));
    }
  }

  lemma StripLine(line: string, end: nat, v: string)
    requires end <= |line| && AllBlank(line[end..]) && (end > 0 ==> !Blank(line[end - 1]))
    requires forall i | 0 <= i < |line| :: line[i] != '\n'
    requires v == [] || v[0] == '\n'
    ensures Strip(line + v) == line[..end] + Strip(v)
  {
    assert line + v == line[..end] + (line[end..] + v);
    StripKeeps(line[..end], line[end..] + v);
    StripBlanks(line[end..], v);
  }

  /** `r` is the stripped form of what precedes the line at `lineStart`. */
  ghost predicate StrippedUpTo(s: string, lineStart: nat, r: string) {
    if lineStart <= |s| then r + Strip(s[lineStart..]) == Strip(s) else r == Strip(s)
  }

  lemma StripLineAt(s: string, lineStart: nat, end: nat, i: nat)
    requires lineStart <= end <= i <= |s|
    requires (forall j | lineStart <= j < i :: s[j] != '\n') && (i == |s| || s[i] == '\n')
    requires (forall j | end <= j < i :: Blank(s[j])) && (end > lineStart ==> !Blank(s[end - 1]))
    ensures Strip(s[lineStart..]) == s[lineStart..end] + Strip(s[i..])
  {
    var line, n := s[lineStart..i], end - lineStart;
    CutLine(s, lineStart, end, i);
    forall j | 0 <= j < |line| ensures line[j] != '\n' { assert line[j] == s[lineStart + j]; }
    StripLine(line, n, s[i..]);
  }

  lemma CutLine(s: string, from: nat, end: nat, i: nat)
    requires from <= end <= i <= |s| && forall j | end <= j < i :: Blank(s[j])
    ensures s[from..] == s[from..i] + s[i..] && s[from..i][..end - from] == s[from..end]
    ensures AllBlank(s[from..i][end - from..])
    ensures end > from ==> s[from..i][end - from - 1] == s[end - 1]
  {
  }

  lemma StripOneLine(s: string, lineStart: nat, end: nat, i: nat, r: string)
    requires lineStart <= end <= i <= |s| && StrippedUpTo(s, lineStart, r)
    requires (forall j | lineStart <= j < i :: s[j] != '\n') && (i == |s| || s[i] == '\n')
    requires (forall j | end <= j < i :: Blank(s[j])) && (end > lineStart ==> !Blank(s[end - 1]))
    ensures StrippedUpTo(s, i + 1, (r + s[lineStart..end]) + (if i < |s| then "\n" else ""))
  {
    StripLineAt(s, lineStart, end, i);
    Assoc(r, s[lineStart..end], Strip(s[i..]));
    if i < |s| {
      assert s[i..][1..] == s[i + 1..];
      Assoc(r + s[lineStart..end], "\n", Strip(s[i + 1..]));
    }
  }

  method StripTrailingBlanks(s: string) returns (r: string)
    ensures r == Strip(s)
  {
    r := [];
    var lineStart, i := 0, 0;
    assert s[0..] == s && [] + Strip(s) == Strip(s);
    while i <= |s|
      invariant 0 <= lineStart <= i <= |s| + 1
      invariant StrippedUpTo(s, lineStart, r)
      invariant i <= |s| ==> forall j | lineStart <= j < i :: s[j] != '\n'
      invariant i > |s| ==> lineStart > |s|
    {
      if i == |s| || s[i] == '\n' {
        var end := i;
        while end > lineStart && Blank(s[end - 1])
          invariant lineStart <= end <= i
          invariant forall j | end <= j < i :: Blank(s[j])
        {
          end := end - 1;
        }
        StripOneLine(s, lineStart, end, i, r);
        r := r + s[lineStart..end];
        if i < |s| { r := r + "\n"; } else { assert r + "" == r; }
        lineStart := i + 1;
      }
      i := i + 1;
    }
  }

  lemma {:induction false} StripIdempotent(s: string)
    ensures Strip(Strip(s)) == Strip(s)
  {
    if s != [] {
      StripIdempotent(s[1..]);
      if Strip(s) != Strip(s[1..]) {
        assert Strip(s)[1..] == Strip(s[1..]);
      }
    }
  }

  lemma {:induction false} StripEmpty(s: string)
    ensures Strip(s) == [] <==> AllBlank(s)
  {
    if s != [] { StripEmpty(s[1..]); }
  }

  // ---- The position map ---------------------------------------------------------

  /** The head of a text is dropped exactly when stripping ignores it. */
  lemma StripHead(s: string)
    requires s != []
    ensures var rest := Strip(s[1..]);
            if Blank(s[0]) && (rest == [] || rest[0] == '\n')
            then Strip(s) == rest else Strip(s) == [s[0]] + rest && Strip(s) != rest
  {
  }

  /** The map of a text whose head is kept, and of one whose head is dropped. */
  lemma PosMapHead(s: string, base: nat)
    requires Strip(s) != []
    ensures s != []
    ensures Strip(s) == Strip(s[1..]) ==>
              Blank(s[0]) && Strip(s)[0] == '\n' && PosMap(s, base) == PosMap(s[1..], base + 1)
    ensures Strip(s) != Strip(s[1..]) ==>
              Strip(s) == [s[0]] + Strip(s[1..]) && PosMap(s, base) == [base] + PosMap(s[1..], base + 1)
  {
    StripHead(s);
  }

  /** `posMap` covers the kept characters before `oi` in the original and before
      `si` in the stripped text. */
  ghost predicate MappedUpTo(orig: string, stripped: string, posMap: seq<nat>, oi: nat, si: nat) {
    && oi <= |orig| && si <= |stripped|
    && Strip(orig[oi..]) == stripped[si..]
    && posMap + PosMap(orig[oi..], oi) == PosMap(orig, 0)
  }

  lemma SkipOne(orig: string, stripped: string, posMap: seq<nat>, oi: nat, si: nat)
    requires MappedUpTo(orig, stripped, posMap, oi, si) && si < |stripped|
    requires stripped[si] == '\n'
    ensures oi < |orig|
    ensures orig[oi] != '\n' ==> MappedUpTo(orig, stripped, posMap, oi + 1, si)
  {
    PosMapHead(orig[oi..], oi);
    assert orig[oi..][1..] == orig[oi + 1..];
  }

  lemma TakeOne(orig: string, stripped: string, posMap: seq<nat>, oi: nat, si: nat)
    requires MappedUpTo(orig, stripped, posMap, oi, si) && si < |stripped|
    requires stripped[si] == '\n' ==> oi < |orig| && orig[oi] == '\n'
    ensures MappedUpTo(orig, stripped, posMap + [oi], oi + 1, si + 1)
  {
    PosMapHead(orig[oi..], oi);
    assert orig[oi..][1..] == orig[oi + 1..];
    assert stripped[si..][1..] == stripped[si + 1..];
    assert posMap + ([oi] + PosMap(orig[oi + 1..], oi + 1)) == posMap + [oi] + PosMap(orig[oi + 1..], oi + 1);
  }

  /** Skips what stripping removed, then takes one position per kept character. */
  method BuildPosMap(orig: string, stripped: string) returns (posMap: seq<nat>)
    requires stripped == Strip(orig)
    ensures posMap == PosMap(orig, 0)
  {
    posMap := [];
    var oi: nat := 0;
    assert orig[0..] == orig && stripped[0..] == stripped;
    for si := 0 to |stripped|
      invariant MappedUpTo(orig, stripped, posMap, oi, si)
    {
      if stripped[si] == '\n' {
        while oi < |orig| && orig[oi] != '\n'
          invariant MappedUpTo(orig, stripped, posMap, oi, si)
        {
          SkipOne(orig, stripped, posMap, oi, si);
          oi := oi + 1;
        }
        SkipOne(orig, stripped, posMap, oi, si);
      }
      TakeOne(orig, stripped, posMap, oi, si);
      posMap := posMap + [oi];
      oi := oi + 1;
    }
    posMap := posMap + [oi];
  }

  /** Position i is kept, and what lies before the next kept position is removed
      blanks, present only in front of a line feed. */
  ghost predicate GapAt(m: seq<nat>, s: string, t: string, i: nat)
    requires |m| == |t| + 1 && i < |t|
  {
    && m[i] < m[i + 1] <= |s|
    && s[m[i]] == t[i]
    && AllBlank(s[m[i] + 1..m[i + 1]])
    && (m[i] + 1 < m[i + 1] ==> i + 1 < |t| && t[i + 1] == '\n')
  }

  /** `m` maps the stripped text `t` into s[k..]: strictly increasing, preserving
      characters, and skipping removed blanks only. */
  ghost predicate IsPosMap(m: seq<nat>, s: string, k: nat, t: string) {
    && |m| == |t| + 1 && k <= m[0] <= |s| && m[|t|] <= |s|
    && AllBlank(s[k..m[0]]) && (k < m[0] ==> t != [] && t[0] == '\n')
    && (forall i | 0 <= i < |t| :: GapAt(m, s, t, i))
    && AllBlank(s[m[|t|]..])
  }

  lemma {:induction false} PosMapIsSound(s: string, k: nat)
    requires k <= |s|
    ensures IsPosMap(PosMap(s[k..], k), s, k, Strip(s[k..]))
    decreases |s| - k
  {
    if Strip(s[k..]) == [] {
      StripEmpty(s[k..]);
    } else {
      PosMapHead(s[k..], k);
      assert s[k..][1..] == s[k + 1..];
      PosMapIsSound(s, k + 1);
      var m', t' := PosMap(s[k + 1..], k + 1), Strip(s[k + 1..]);
      if Strip(s[k..]) == t' {
        assert s[k..m'[0]] == [s[k]] + s[k + 1..m'[0]];
      } else {
        MapCons(m', s, k, t');
      }
    }
  }

  lemma MapCons(m': seq<nat>, s: string, k: nat, t': string)
    requires k < |s| && IsPosMap(m', s, k + 1, t')
    ensures IsPosMap([k] + m', s, k, [s[k]] + t')
  {
    var m, t := [k] + m', [s[k]] + t';
    forall i | 0 <= i < |t| ensures GapAt(m, s, t, i) {
      if i > 0 { assert GapAt(m', s, t', i - 1); }
    }
  }

  // ---- The region a fuzzy match selects ---------------------------------------

  lemma StripCons(c: char, x: string, y: string)
    requires Strip(x) == Strip(y)
    ensures Strip([c] + x) == Strip([c] + y)
  {
    assert ([c] + x)[1..] == x && ([c] + y)[1..] == y;
  }

  lemma {:induction false} MapIncreases(m: seq<nat>, s: string, t: string, i: nat, j: nat)
    requires IsPosMap(m, s, 0, t) && i <= j <= |t|
    ensures m[i] + (j - i) <= m[j] <= |s|
    decreases j - i
  {
    if i < j {
      assert GapAt(m, s, t, i);
      MapIncreases(m, s, t, i + 1, j);
    } else if j > 0 {
      assert GapAt(m, s, t, j - 1);
    }
  }

  lemma {:induction false} RegionStrips(s: string, m: seq<nat>, t: string, i: nat, j: nat)
    requires IsPosMap(m, s, 0, t) && i <= j <= |t|
    ensures m[i] + (j - i) <= m[j] <= |s|
    ensures Strip(s[m[i]..m[j]]) == Strip(t[i..j])
    decreases j - i
  {
    MapIncreases(m, s, t, i, j);
    if i < j {
      assert GapAt(m, s, t, i);
      MapIncreases(m, s, t, i + 1, j);
      RegionStrips(s, m, t, i + 1, j);
      var gap, region := s[m[i] + 1..m[i + 1]], s[m[i + 1]..m[j]];
      assert s[m[i]..m[j]] == [t[i]] + (gap + region);
      assert t[i..j] == [t[i]] + t[i + 1..j];
      if gap == [] {
        assert gap + region == region;
      } else {
        if i + 1 < j { assert GapAt(m, s, t, i + 1); }
        StripBlanks(gap, region);
      }
      StripCons(t[i], gap + region, t[i + 1..j]);
    }
  }

  /** From entry `at` on, the map selects a region that strips to `u`. */
  ghost predicate Selects(s: string, m: seq<nat>, u: string, at: nat) {
    && at + |u| < |m| && m[at] + |u| <= m[at + |u|] <= |s|
    && Strip(s[m[at]..m[at + |u|]]) == u
  }

  /** The region selected for a stripped occurrence of Strip(oldText) is `oldText` up to
      trailing blanks. */
  lemma FuzzyRegion(s: string, oldText: string, at: nat)
    requires OccursAt(Strip(s), Strip(oldText), at)
    ensures |PosMap(s, 0)| == |Strip(s)| + 1 && Selects(s, PosMap(s, 0), Strip(oldText), at)
  {
    WholeMap(s);
    StripIdempotent(oldText);
    MappedRegion(s, PosMap(s, 0), Strip(s), Strip(oldText), at);
  }

  lemma MappedRegion(s: string, m: seq<nat>, t: string, u: string, at: nat)
    requires IsPosMap(m, s, 0, t) && OccursAt(t, u, at) && Strip(u) == u
    ensures Selects(s, m, u, at)
  {
    RegionOf(s, m, t, u, at, at + |u|);
  }

  lemma WholeMap(s: string)
    ensures IsPosMap(PosMap(s, 0), s, 0, Strip(s)) && |PosMap(s, 0)| == |Strip(s)| + 1
  {
    assert s[0..] == s;
    PosMapIsSound(s, 0);
  }

  lemma RegionOf(s: string, m: seq<nat>, t: string, u: string, at: nat, end: nat)
    requires IsPosMap(m, s, 0, t) && at <= end <= |t| && t[at..end] == u
    ensures m[at] + |u| <= m[end] <= |s| && Strip(s[m[at]..m[end]]) == Strip(u)
  {
    RegionStrips(s, m, t, at, end);
  }

  /** Nothing but blanks from `i` to the end of its line: what stripping drops. */
  ghost predicate Trails(s: string, i: nat)
    requires i < |s|
  {
    exists j :: TrailsTo(s, i, j)
  }

  ghost predicate TrailsTo(s: string, i: nat, j: nat) {
    i < j <= |s| && (j == |s| || s[j] == '\n') && forall k | i <= k < j :: Blank(s[k])
  }

  ghost predicate NoBlankEnd(t: string) {
    forall i | 0 <= i < |t| && Blank(t[i]) :: i + 1 < |t| && t[i + 1] != '\n'
  }

  /** No position of the map is one that stripping drops. */
  lemma {:induction false} KeptDoesNotTrail(s: string, m: seq<nat>, t: string, i: nat, j: nat)
    requires IsPosMap(m, s, 0, t) && NoBlankEnd(t) && i < |t|
    ensures m[i] < |s| && s[m[i]] == t[i] && !TrailsTo(s, m[i], j)
    decreases |t| - i
  {
    assert GapAt(m, s, t, i);
    if TrailsTo(s, m[i], j) {
      assert Blank(t[i]) && m[i + 1] == m[i] + 1;
      KeptDoesNotTrail(s, m, t, i + 1, j);
      assert false;
    }
  }

  lemma KeptIsNoTrail(s: string, m: seq<nat>, t: string, i: nat)
    requires IsPosMap(m, s, 0, t) && NoBlankEnd(t) && i < |t|
    ensures BeginsKept(s, m[i])
  {
    KeptDoesNotTrail(s, m, t, i, 0);
    forall j ensures !TrailsTo(s, m[i], j) { KeptDoesNotTrail(s, m, t, i, j); }
  }

  lemma LastIsKept(s: string, m: seq<nat>, t: string)
    requires IsPosMap(m, s, 0, t) && NoBlankEnd(t) && t != []
    ensures EndsKept(s, m[|t|])
  {
    assert GapAt(m, s, t, |t| - 1);
  }

  lemma KeptIsNotAllBlank(s: string, p: nat)
    requires BeginsKept(s, p)
    ensures EndsKept(s, p) || p == 0
  {
    if AllBlank(s[p..]) {
      forall k | p <= k < |s| ensures Blank(s[k]) { assert s[k] == s[p..][k - p]; }
      assert TrailsTo(s, p, |s|);
    }
  }

  lemma StripHasNoBlankEnd(s: string)
    ensures NoBlankEnd(Strip(s))
  {
    var t := Strip(s);
    forall i | 0 <= i < |t| && Blank(t[i]) ensures i + 1 < |t| && t[i + 1] != '\n' { StripLeavesNoBlankEnd(s, i); }
  }

  /** A kept character stands at `p`. */
  ghost predicate BeginsKept(s: string, p: nat) {
    p < |s| && !Trails(s, p)
  }

  /** A kept character stands at `end`, or only blanks follow and one stands before. */
  ghost predicate EndsKept(s: string, end: nat) {
    && 0 < end <= |s|
    && if AllBlank(s[end..]) then !Blank(s[end - 1]) else !Trails(s, end)
  }

  /** Where the selected region begins and ends: it begins at a character that is kept,
      and it ends before one or behind the last one.  So blanks that trail the matched
      text are part of it, but for those at the very end of the file. */
  lemma RegionEnds(s: string, from: nat, to: nat)
    requires from < to <= |Strip(s)|
    ensures |PosMap(s, 0)| == |Strip(s)| + 1
    ensures BeginsKept(s, PosMap(s, 0)[from]) && EndsKept(s, PosMap(s, 0)[to])
  {
    WholeMap(s);
    StripHasNoBlankEnd(s);
    MapEnds(s, PosMap(s, 0), Strip(s), from, to);
  }

  lemma MapEnds(s: string, m: seq<nat>, t: string, i: nat, j: nat)
    requires IsPosMap(m, s, 0, t) && NoBlankEnd(t) && i < j <= |t|
    ensures BeginsKept(s, m[i]) && EndsKept(s, m[j])
  {
    KeptIsNoTrail(s, m, t, i);
    if j == |t| {
      LastIsKept(s, m, t);
    } else {
      KeptIsNoTrail(s, m, t, j);
      MapIncreases(m, s, t, i, j);
      KeptIsNotAllBlank(s, m[j]);
    }
  }
}
