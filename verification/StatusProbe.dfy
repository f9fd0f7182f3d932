/** Finding boxsh's own exit-status marker in terminal output that arrives in
    chunks: only the last bytes of what was scanned are carried over. */
module StatusProbe {
  import opened Requests
  import opened Text
  import opened Decimal

  const PREFIX := "\U{1B}]9999;boxsh-status="
  const BEL: char := '\U{7}'
  const MAX_CODE: nat := 1000000

  /** The number at `p`, if its digits end in BEL. */
  function CodeAt(w: string, p: nat, code: nat, digits: bool): Option<nat>
    decreases |w| - p
  {
    if p < |w| && IsDigit(w[p]) then
      var c := code * 10 + (w[p] - '0') as nat;
      if c > MAX_CODE then None else CodeAt(w, p + 1, c, true)
    else if digits && p < |w| && w[p] == BEL then Some(code)
    else None
  }

  /** A full marker begins at `i`. */
  predicate IsMarker(w: string, i: nat) {
    OccursAt(w, PREFIX, i) && CodeAt(w, i + |PREFIX|, 0, false).Some?
  }

  function MarkerCode(w: string, i: nat): nat
    requires IsMarker(w, i)
  {
    CodeAt(w, i + |PREFIX|, 0, false).value
  }

  function FirstMarker(w: string, from: nat): (r: Option<nat>)
    ensures r.Some? ==> from <= r.value && IsMarker(w, r.value)
    ensures r.Some? ==> forall j | from <= j < r.value :: !IsMarker(w, j)
    ensures r.None? ==> forall j | j >= from :: !IsMarker(w, j)
    decreases |w| - from
  {
    if from >= |w| then None
    else if IsMarker(w, from) then Some(from)
    else FirstMarker(w, from + 1)
  }

  datatype Probe = Probe(tail: string, pending: bool, pendingSeq: nat,
                         doneSeq: nat, code: nat, generation: nat)

  function Last(s: string, n: nat): string {
    if |s| > n then s[|s| - n..] else s
  }

  function LastBytes(s: string): string {
    Last(s, |PREFIX|)
  }

  function Scan(p: Probe, chunk: string): Probe {
    var window := p.tail + chunk;
    var hit := FirstMarker(window, 0);
    if p.pending && hit.Some?
    then p.(tail := LastBytes(window), pending := false, doneSeq := p.pendingSeq,
            code := MarkerCode(window, hit.value), generation := p.generation + 1)
    else p.(tail := LastBytes(window))
  }

  // ---- Markers -------------------------------------------------------------------

  lemma EscapeOnlyFirst(i: nat)
    requires 0 < i < |PREFIX|
    ensures PREFIX[i] != PREFIX[0] && !IsDigit(PREFIX[0]) && PREFIX[0] != BEL
  {
  }

  lemma PrefixBytes(w: string, i: nat, k: nat)
    requires OccursAt(w, PREFIX, i) && k < |PREFIX|
    ensures w[i + k] == PREFIX[k]
  {
    assert w[i..i + |PREFIX|][k] == w[i + k];
  }

  /** Two prefixes never overlap. */
  lemma PrefixesApart(w: string, i: nat, j: nat)
    requires OccursAt(w, PREFIX, i) && i < j < i + |PREFIX|
    ensures !OccursAt(w, PREFIX, j)
  {
    PrefixBytes(w, i, j - i);
    EscapeOnlyFirst(j - i);
  }

  /** Where the BEL of a marker stands. */
  function EndOf(w: string, p: nat): nat
    requires p <= |w|
    decreases |w| - p
  {
    if p < |w| && IsDigit(w[p]) then EndOf(w, p + 1) else p
  }

  lemma {:induction false} EndIsBel(w: string, p: nat, code: nat, digits: bool)
    requires p <= |w| && CodeAt(w, p, code, digits).Some?
    ensures p <= EndOf(w, p) < |w| && w[EndOf(w, p)] == BEL
    ensures !digits ==> p < EndOf(w, p)
    ensures forall k | p <= k < EndOf(w, p) :: IsDigit(w[k])
    decreases |w| - p
  {
    if p < |w| && IsDigit(w[p]) {
      EndIsBel(w, p + 1, code * 10 + (w[p] - '0') as nat, true);
    }
  }

  /** A marker of a text is one of every longer text with the same code, and back
      again if its BEL is within the shorter one. */
  lemma {:induction false} CodeOfPrefix(w: string, x: string, p: nat, code: nat, digits: bool)
    requires p <= |w|
    ensures CodeAt(w, p, code, digits).Some? ==> CodeAt(w + x, p, code, digits) == CodeAt(w, p, code, digits)
    ensures CodeAt(w, p, code, digits).Some? ==> EndOf(w + x, p) == EndOf(w, p)
    ensures CodeAt(w + x, p, code, digits).Some? && EndOf(w + x, p) < |w| ==> CodeAt(w, p, code, digits).Some?
    decreases |w| - p
  {
    if p < |w| && IsDigit(w[p]) {
      CodeOfPrefix(w, x, p + 1, code * 10 + (w[p] - '0') as nat, true);
    } else if p == |w| && CodeAt(w + x, p, code, digits).Some? {
      EndIsBel(w + x, p, code, digits);
    }
  }

  lemma MarkerOfPrefix(w: string, x: string, i: nat)
    ensures IsMarker(w, i) ==> IsMarker(w + x, i) && MarkerCode(w + x, i) == MarkerCode(w, i)
    ensures IsMarker(w + x, i) && EndOf(w + x, i + |PREFIX|) < |w| ==> IsMarker(w, i)
  {
    if i + |PREFIX| <= |w| {
      assert w[i..i + |PREFIX|] == (w + x)[i..i + |PREFIX|];
      CodeOfPrefix(w, x, i + |PREFIX|, 0, false);
    } else if IsMarker(w + x, i) {
      EndIsBel(w + x, i + |PREFIX|, 0, false);
    }
  }

  lemma {:induction false} CodeOfSuffix(s: string, k: nat, p: nat, code: nat, digits: bool)
    requires k <= |s| && p <= |s| - k
    ensures CodeAt(s[k..], p, code, digits) == CodeAt(s, k + p, code, digits)
    ensures EndOf(s[k..], p) + k == EndOf(s, k + p)
    decreases |s| - k - p
  {
    if p < |s| - k && IsDigit(s[k + p]) {
      CodeOfSuffix(s, k, p + 1, code * 10 + (s[k + p] - '0') as nat, true);
    }
  }

  lemma MarkerOfSuffix(s: string, k: nat, j: nat)
    requires k <= |s|
    ensures IsMarker(s[k..], j) <==> IsMarker(s, k + j)
    ensures IsMarker(s, k + j) ==> MarkerCode(s[k..], j) == MarkerCode(s, k + j)
  {
    if j + |PREFIX| <= |s| - k {
      assert s[k..][j..j + |PREFIX|] == s[k + j..k + j + |PREFIX|];
      CodeOfSuffix(s, k, j + |PREFIX|, 0, false);
    }
  }

  /** A marker ends before the next one begins. */
  lemma MarkersApart(w: string, i: nat, j: nat)
    requires IsMarker(w, i) && IsMarker(w, j) && i < j
    ensures EndOf(w, i + |PREFIX|) < j
  {
    EndIsBel(w, i + |PREFIX|, 0, false);
    PrefixBytes(w, j, 0);
    EscapeOnlyFirst(1);
    if j < i + |PREFIX| { PrefixesApart(w, i, j); assert false; }
  }

  // ---- Printed statuses ----------------------------------------------------------------

  lemma {:induction false} ValueGrows(ds: string, acc: nat)
    ensures DigitsValue(ds, acc) >= acc
  {
    if ds != [] && IsDigit(ds[0]) { ValueGrows(ds[1..], acc * 10 + (ds[0] - '0') as nat); }
  }

  lemma {:induction false} CodeOfDigits(w: string, p: nat, ds: string, code: nat, digits: bool)
    requires p + |ds| < |w| && w[p..p + |ds|] == ds && w[p + |ds|] == BEL && (digits || ds != [])
    requires (forall i | 0 <= i < |ds| :: IsDigit(ds[i])) && code <= MAX_CODE
    ensures CodeAt(w, p, code, digits) ==
            if DigitsValue(ds, code) <= MAX_CODE then Some(DigitsValue(ds, code)) else None
    decreases |ds|
  {
    if ds != [] {
      var c := code * 10 + (ds[0] - '0') as nat;
      assert w[p] == w[p..p + |ds|][0] && w[p + 1..p + 1 + |ds[1..]|] == ds[1..];
      ValueGrows(ds[1..], c);
      if c <= MAX_CODE { CodeOfDigits(w, p + 1, ds[1..], c, true); }
    }
  }

  /** The marker that the probe line prints for status `n` is read as `n`, up to the
      largest status the scanner accepts; a larger number is no marker. */
  lemma PrintedStatusIsRead(front: string, n: nat, rest: string)
    ensures var w := front + ((PREFIX + ToString(n)) + ([BEL] + rest));
            && (IsMarker(w, |front|) <==> n <= MAX_CODE)
            && (n <= MAX_CODE ==> MarkerCode(w, |front|) == n)
  {
    var ds := ToString(n);
    var w, p := front + ((PREFIX + ds) + ([BEL] + rest)), |front| + |PREFIX|;
    ToStringDigits(n);
    DigitsOfToString(n, []);
    assert ds + [] == ds;
    MarkerParts(front, PREFIX, ds, [BEL] + rest);
    CodeOfDigits(w, p, ds, 0, false);
  }

  lemma MarkerParts(front: string, prefix: string, ds: string, rest: string)
    requires rest != []
    ensures var w, p := front + ((prefix + ds) + rest), |front| + |prefix|;
            w[|front|..p] == prefix && w[p..p + |ds|] == ds && p + |ds| < |w| && w[p + |ds|] == rest[0]
  {
  }

  // ---- Scanning in chunks ------------------------------------------------------------

  /** The window of a scan is the end of the stream, from at most |PREFIX| bytes
      before the new chunk. */
  lemma WindowIsSuffix(before: string, chunk: string)
    ensures LastBytes(before) + chunk == (before + chunk)[|before| - |LastBytes(before)|..]
    ensures LastBytes(LastBytes(before) + chunk) == LastBytes(before + chunk)
  {
    LastOfLast(before, chunk, |PREFIX|);
  }

  lemma LastOfLast(before: string, chunk: string, n: nat)
    ensures Last(before, n) + chunk == (before + chunk)[|before| - |Last(before, n)|..]
    ensures Last(Last(before, n) + chunk, n) == Last(before + chunk, n)
  {
    var k := |before| - |Last(before, n)|;
    assert before[k..] + chunk == (before + chunk)[k..];
  }

  /** A pending probe is satisfied by a chunk exactly when some marker of the
      stream has its BEL in the chunk and its prefix ends no earlier than the
      chunk begins; a cut after the first digit makes the marker invisible. */
  lemma ChunkSatisfiesExactly(p: Probe, before: string, chunk: string)
    requires p.pending && p.tail == LastBytes(before)
    ensures !Scan(p, chunk).pending <==>
              exists i: nat :: IsMarker(before + chunk, i) && |before| <= i + |PREFIX|
  {
    var k := |before| - |LastBytes(before)|;
    var s := before + chunk;
    WindowIsSuffix(before, chunk);
    MarkerInSuffix(s, k);
    forall i: nat | IsMarker(s, i) ensures k <= i <==> |before| <= i + |PREFIX| { TailReach(before, i); }
    assert !Scan(p, chunk).pending <==> FirstMarker(s[k..], 0).Some?;
  }

  lemma TailReach(before: string, i: nat)
    ensures |before| - |LastBytes(before)| <= i <==> |before| <= i + |PREFIX|
  {
  }

  /** Only a completed probe wakes a waiter that does not watch the output. */
  lemma CompletionIsCounted(p: Probe, chunk: string)
    requires p.pending
    ensures Scan(p, chunk).generation == p.generation + if Scan(p, chunk).pending then 0 else 1
  {
  }

  lemma MarkerInSuffix(s: string, k: nat)
    requires k <= |s|
    ensures FirstMarker(s[k..], 0).Some? <==> exists i: nat :: IsMarker(s, i) && k <= i
  {
    var hit := FirstMarker(s[k..], 0);
    if hit.Some? {
      MarkerOfSuffix(s, k, hit.value);
      assert IsMarker(s, k + hit.value);
    }
    forall i: nat | IsMarker(s, i) && k <= i ensures IsMarker(s[k..], i - k) {
      MarkerOfSuffix(s, k, i - k);
    }
  }

  /** Whatever satisfies a probe was completed after the probe was armed: its BEL
      is in the new chunk, because the carried tail is shorter than any marker. */
  lemma ConsumedMarkerIsNotSeenAgain(before: string, chunk: string, j: nat)
    requires IsMarker(LastBytes(before) + chunk, j)
    ensures EndOf(LastBytes(before) + chunk, j + |PREFIX|) >= |LastBytes(before)|
    ensures var k := |before| - |LastBytes(before)|;
            IsMarker(before + chunk, k + j) && EndOf(before + chunk, k + j + |PREFIX|) >= |before|
  {
    WindowIsSuffix(before, chunk);
    EndInSuffix(before + chunk, |before| - |LastBytes(before)|, LastBytes(before) + chunk, j);
    TailIsShort(before);
  }

  lemma TailIsShort(before: string)
    ensures |LastBytes(before)| <= |PREFIX| && |LastBytes(before)| <= |before|
  {
  }

  lemma EndInSuffix(s: string, k: nat, w: string, j: nat)
    requires k <= |s| && w == s[k..] && IsMarker(w, j)
    ensures IsMarker(s, k + j)
    ensures j + |PREFIX| <= EndOf(w, j + |PREFIX|) == EndOf(s, k + j + |PREFIX|) - k
  {
    EndIsBel(w, j + |PREFIX|, 0, false);
    MarkerOfSuffix(s, k, j);
    CodeOfSuffix(s, k, j + |PREFIX|, 0, false);
  }

  function Joined(chunks: seq<string>): string {
    if chunks == [] then [] else Joined(chunks[..|chunks| - 1]) + chunks[|chunks| - 1]
  }

  function ScanAll(p: Probe, chunks: seq<string>): Probe {
    if chunks == [] then p else Scan(ScanAll(p, chunks[..|chunks| - 1]), chunks[|chunks| - 1])
  }

  /** No chunk begins strictly inside the digits of a marker (up to its BEL). */
  ghost predicate NoMarkerCut(chunks: seq<string>) {
    forall n: nat, i: nat | n < |chunks| && IsMarker(Joined(chunks), i) ::
      var cut := |Joined(chunks[..n])|;
      cut <= i + |PREFIX| || cut > EndOf(Joined(chunks), i + |PREFIX|)
  }

  lemma {:induction false} TailIsLastBytes(p: Probe, chunks: seq<string>)
    requires p.tail == []
    ensures ScanAll(p, chunks).tail == LastBytes(Joined(chunks))
  {
    if chunks != [] {
      var front := chunks[..|chunks| - 1];
      TailIsLastBytes(p, front);
      WindowIsSuffix(Joined(front), chunks[|chunks| - 1]);
    }
  }

  lemma NoMarkerCutInFront(chunks: seq<string>)
    requires NoMarkerCut(chunks) && chunks != []
    ensures NoMarkerCut(chunks[..|chunks| - 1])
  {
    var front, last := chunks[..|chunks| - 1], chunks[|chunks| - 1];
    forall n: nat, i: nat | n < |front| && IsMarker(Joined(front), i)
      ensures var cut := |Joined(front[..n])|;
              cut <= i + |PREFIX| || cut > EndOf(Joined(front), i + |PREFIX|)
    {
      MarkerOfPrefix(Joined(front), last, i);
      CodeOfPrefix(Joined(front), last, i + |PREFIX|, 0, false);
      assert front[..n] == chunks[..n] && Joined(chunks) == Joined(front) + last;
      assert IsMarker(Joined(chunks), i);
    }
  }

  lemma FirstMarkerOfLonger(w: string, x: string)
    requires FirstMarker(w, 0).Some?
    ensures FirstMarker(w + x, 0) == FirstMarker(w, 0)
    ensures MarkerCode(w + x, FirstMarker(w, 0).value) == MarkerCode(w, FirstMarker(w, 0).value)
  {
    var i := FirstMarker(w, 0).value;
    MarkerOfPrefix(w, x, i);
    var j := FirstMarker(w + x, 0).value;
    if j < i {
      MarkersApart(w + x, j, i);
      MarkerOfPrefix(w, x, j);
      assert false;
    }
  }

  /** A marker completed by the last chunk, and not cut, is found in the window at
      the place the whole stream has it. */
  lemma FirstMarkerInWindow(before: string, chunk: string)
    requires FirstMarker(before, 0).None?
    requires forall i: nat | IsMarker(before + chunk, i) ::
               |before| <= i + |PREFIX| || |before| > EndOf(before + chunk, i + |PREFIX|)
    ensures var window := LastBytes(before) + chunk;
            var hit, whole := FirstMarker(window, 0), FirstMarker(before + chunk, 0);
            && (hit.Some? <==> whole.Some?)
            && (hit.Some? ==> MarkerCode(window, hit.value) == MarkerCode(before + chunk, whole.value))
  {
    var k := |before| - |LastBytes(before)|;
    var s := before + chunk;
    WindowIsSuffix(before, chunk);
    forall i: nat | IsMarker(s, i) ensures k <= i { UncutIsInWindow(before, chunk, i, k); }
    FirstInSuffix(s, k);
  }

  lemma UncutIsInWindow(before: string, chunk: string, i: nat, k: nat)
    requires FirstMarker(before, 0).None? && IsMarker(before + chunk, i) && k == |before| - |LastBytes(before)|
    requires |before| <= i + |PREFIX| || |before| > EndOf(before + chunk, i + |PREFIX|)
    ensures k <= i
  {
    MarkerOfPrefix(before, chunk, i);
    TailReach(before, i);
  }

  lemma FirstMarkerIs(w: string, q: nat)
    requires IsMarker(w, q) && forall i: nat | i < q :: !IsMarker(w, i)
    ensures FirstMarker(w, 0) == Some(q)
  {
  }

  lemma FirstInSuffix(s: string, k: nat)
    requires k <= |s| && forall i: nat | IsMarker(s, i) :: k <= i
    ensures var hit, whole := FirstMarker(s[k..], 0), FirstMarker(s, 0);
            && (hit.Some? <==> whole.Some?)
            && (hit.Some? ==> MarkerCode(s[k..], hit.value) == MarkerCode(s, whole.value))
  {
    SkipToFirst(s, 0, k);
    FirstFrom(s, k, 0, k);
    var hit, whole := FirstMarker(s[k..], 0), FirstMarker(s, 0);
    if hit.Some? { MarkerShifted(s, k, hit.value, whole.value); }
  }

  lemma MarkerShifted(s: string, k: nat, j: nat, i: nat)
    requires k <= |s| && i == k + j && IsMarker(s[k..], j)
    ensures IsMarker(s, i) && MarkerCode(s[k..], j) == MarkerCode(s, i)
  {
    MarkerOfSuffix(s, k, j);
  }

  lemma {:induction false} SkipToFirst(s: string, i: nat, k: nat)
    requires i <= k <= |s| && forall j: nat | IsMarker(s, j) :: k <= j
    ensures FirstMarker(s, i) == FirstMarker(s, k)
    decreases k - i
  {
    if i < k { SkipToFirst(s, i + 1, k); }
  }

  lemma {:induction false} FirstFrom(s: string, k: nat, j: nat, i: nat)
    requires k <= |s| && i == k + j <= |s|
    ensures FirstMarker(s[k..], j).Some? <==> FirstMarker(s, i).Some?
    ensures FirstMarker(s, i).Some? ==> FirstMarker(s, i).value == k + FirstMarker(s[k..], j).value
    decreases |s| - i
  {
    if i < |s| {
      MarkerOfSuffix(s, k, j);
      FirstFrom(s, k, j + 1, i + 1);
    }
  }

  lemma {:induction false} ChunkingFromTheStart(p: Probe, chunks: seq<string>)
    requires p.pending && p.tail == [] && NoMarkerCut(chunks)
    ensures ScanAll(p, chunks) == Scan(p, Joined(chunks))
  {
    assert [] + Joined(chunks) == Joined(chunks);
    if chunks != [] {
      var front, last := chunks[..|chunks| - 1], chunks[|chunks| - 1];
      var before := Joined(front);
      assert [] + before == before;
      NoMarkerCutInFront(chunks);
      ChunkingFromTheStart(p, front);
      WindowIsSuffix(before, last);
      if FirstMarker(before, 0).Some? {
        FirstMarkerOfLonger(before, last);
      } else {
        assert chunks[..|chunks| - 1] == front;
        FirstMarkerInWindow(before, last);
      }
    }
  }

  lemma {:induction false} JoinedFrom(first: string, chunks: seq<string>)
    ensures Joined([first] + chunks) == first + Joined(chunks)
  {
    var all := [first] + chunks;
    if chunks == [] {
      assert all[..0] == [] && Joined([]) + first == first + Joined([]);
    } else {
      JoinedFrom(first, chunks[..|chunks| - 1]);
      assert all[..|all| - 1] == [first] + chunks[..|chunks| - 1];
    }
  }

  lemma {:induction false} ScanAllFrom(p: Probe, first: string, chunks: seq<string>)
    ensures ScanAll(p, [first] + chunks) == ScanAll(Scan(p, first), chunks)
  {
    var all := [first] + chunks;
    if chunks == [] {
      assert all[..0] == [] && ScanAll(p, []) == p;
    } else {
      ScanAllFrom(p, first, chunks[..|chunks| - 1]);
      assert all[..|all| - 1] == [first] + chunks[..|chunks| - 1];
    }
  }

  /** A text no longer than the prefix holds no marker. */
  lemma ShortHoldsNoMarker(w: string)
    requires |w| <= |PREFIX|
    ensures FirstMarker(w, 0).None?
  {
    var hit := FirstMarker(w, 0);
    if hit.Some? { EndIsBel(w, hit.value + |PREFIX|, 0, false); }
  }

  /** A probe armed at any time, with whatever tail was carried by then, ends up as
      if all the later output had arrived at once, for every chunking that cuts no
      marker between its first digit and its BEL.  (The cut after the carried tail
      is never such a cut, because the tail is no longer than the prefix.) */
  lemma ChunkingDoesNotMatter(p: Probe, chunks: seq<string>)
    requires p.pending && |p.tail| <= |PREFIX| && NoMarkerCut([p.tail] + chunks)
    ensures ScanAll(p, chunks) == Scan(p, Joined(chunks))
  {
    var p0 := p.(tail := []);
    ChunkingFromTheStart(p0, [p.tail] + chunks);
    ScanAllFrom(p0, p.tail, chunks);
    JoinedFrom(p.tail, chunks);
    ScanFromStart(p, p0);
    ScanCarried(p, p0, Joined(chunks));
  }

  /** Scanning what is carried gives the probe as it is. */
  lemma ScanFromStart(p: Probe, p0: Probe)
    requires |p.tail| <= |PREFIX| && p0 == p.(tail := [])
    ensures Scan(p0, p.tail) == p
  {
    assert [] + p.tail == p.tail;
    ShortHoldsNoMarker(p.tail);
  }

  lemma ScanCarried(p: Probe, p0: Probe, rest: string)
    requires p0 == p.(tail := [])
    ensures Scan(p0, p.tail + rest) == Scan(p, rest)
  {
    assert [] + (p.tail + rest) == p.tail + rest;
  }

  /** The marker of status 12, cut between its digits: scanned at once it completes
      the probe, in two chunks it does not. */
  lemma CutMarkerIsMissed(p: Probe)
    requires p.pending && p.tail == []
    ensures var chunks := [PREFIX + "1", "2\U{7}"];
            && !Scan(p, Joined(chunks)).pending && Scan(p, Joined(chunks)).code == 12
            && ScanAll(p, chunks).pending
  {
    var first, last := PREFIX + "1", "2\U{7}";
    var chunks := [first, last];
    assert chunks[..1] == [first] && [first][..0] == [];
    assert Joined([first]) == [] + first == first;
    var whole := first + last;
    WholeMarker(whole);
    assert [] + whole == whole && [] + first == first;
    HalfMarker(first, last);
    assert ScanAll(p, [first]) == Scan(ScanAll(p, []), first);
  }

  lemma WholeMarker(whole: string)
    requires whole == PREFIX + "1" + "2\U{7}"
    ensures FirstMarker(whole, 0) == Some(0) && MarkerCode(whole, 0) == 12
  {
    assert whole[0..|PREFIX|] == PREFIX;
    assert whole[|PREFIX|] == '1' && whole[|PREFIX| + 1] == '2' && whole[|PREFIX| + 2] == BEL;
    assert CodeAt(whole, |PREFIX| + 2, 12, true) == Some(12);
    assert CodeAt(whole, |PREFIX| + 1, 1, true) == Some(12);
    assert CodeAt(whole, |PREFIX|, 0, false) == Some(12);
    assert IsMarker(whole, 0);
  }

  lemma HalfMarker(first: string, last: string)
    requires first == PREFIX + "1" && last == "2\U{7}"
    ensures FirstMarker(first, 0).None? && FirstMarker(LastBytes(first) + last, 0).None?
  {
    var w := LastBytes(first) + last;
    NoBelNoMarker(first);
    forall k | 0 <= k < |w| ensures w[k] != PREFIX[0] {
      if k + 1 < |PREFIX| { EscapeOnlyFirst(k + 1); }
    }
    NoEscapeNoMarker(w);
  }

  lemma NoBelNoMarker(w: string)
    requires forall k | 0 <= k < |w| :: w[k] != BEL
    ensures FirstMarker(w, 0).None?
  {
    var hit := FirstMarker(w, 0);
    if hit.Some? { EndIsBel(w, hit.value + |PREFIX|, 0, false); }
  }

  lemma NoEscapeNoMarker(w: string)
    requires forall k | 0 <= k < |w| :: w[k] != PREFIX[0]
    ensures FirstMarker(w, 0).None?
  {
    var hit := FirstMarker(w, 0);
    if hit.Some? { PrefixBytes(w, hit.value, 0); }
  }

  lemma NoMarkerBefore(w: string, from: nat, pos: nat)
    requires Find(w, PREFIX, from) == Some(pos) && forall i | 0 <= i < from :: !IsMarker(w, i)
    ensures forall i: nat | i < pos :: !IsMarker(w, i)
  {
  }

  lemma NoMarkerUpTo(w: string, from: nat, pos: nat)
    requires Find(w, PREFIX, from) == Some(pos) && !IsMarker(w, pos)
    requires forall i | 0 <= i < from :: !IsMarker(w, i)
    ensures forall i | 0 <= i < pos + |PREFIX| :: !IsMarker(w, i)
  {
    forall i | 0 <= i < pos + |PREFIX| ensures !IsMarker(w, i) {
      if i > pos { PrefixesApart(w, pos, i); }
    }
  }

  // ---- The object ---------------------------------------------------------------------

  class Scanner {
    var scanTail: string
    var pending: bool
    var pendingSeq: nat
    var doneSeq: nat
    var code: nat
    var generation: nat

    ghost function Now(): Probe
      reads this
    {
      Probe(scanTail, pending, pendingSeq, doneSeq, code, generation)
    }

    constructor ()
      ensures Now() == Probe([], false, 0, 0, 0, 0)
    {
      scanTail, pending, pendingSeq, doneSeq, code, generation := [], false, 0, 0, 0, 0;
    }

    method ScanStatus(chunk: string)
      modifies this
      ensures Now() == Scan(old(Now()), chunk)
    {
      var window := scanTail + chunk;
      if pending {
        var found := FindStatus(window);
        if found.Some? {
          code := found.value;
          doneSeq := pendingSeq;
          pending := false;
          generation := generation + 1;
        }
      }
      if |window| > |PREFIX| { window := window[|window| - |PREFIX|..]; }
      scanTail := window;
    }

    /** The search loop: the code of the first complete marker. */
    static method FindStatus(window: string) returns (found: Option<nat>)
      ensures found.Some? <==> FirstMarker(window, 0).Some?
      ensures found.Some? ==> found.value == MarkerCode(window, FirstMarker(window, 0).value)
    {
      var pos := Find(window, PREFIX, 0);
      ghost var from: nat := 0;
      while pos.Some?
        invariant from <= |window| + |PREFIX| && pos == Find(window, PREFIX, from)
        invariant forall i | 0 <= i < from :: !IsMarker(window, i)
        decreases |window| + |PREFIX| - from
      {
        found := ParseCode(window, pos.value + |PREFIX|);
        if found.Some? {
          NoMarkerBefore(window, from, pos.value);
          FirstMarkerIs(window, pos.value);
          return;
        }
        NoMarkerUpTo(window, from, pos.value);
        from := pos.value + |PREFIX|;
        pos := Find(window, PREFIX, pos.value + |PREFIX|);
      }
      found := None;
    }

    static method ParseCode(window: string, at: nat) returns (r: Option<nat>)
      ensures r == CodeAt(window, at, 0, false)
    {
      var p: nat, code: nat, digits := at, 0, false;
      while p < |window| && IsDigit(window[p])
        invariant at <= p
        invariant CodeAt(window, at, 0, false) == CodeAt(window, p, code, digits)
        decreases |window| - p
      {
        code := code * 10 + (window[p] - '0') as nat;
        digits := true;
        if code > MAX_CODE { return None; }
        p := p + 1;
      }
      if digits && p < |window| && window[p] == BEL { return Some(code); }
      return None;
    }
  }
}
