/** Every interleaving of fill, has_line and get_line, over every chunking. */
module TransportTheorems {
  import opened Requests
  import opened Text
  import opened Decimal
  import opened LineReader

  datatype Op = Deliver(results: seq<Read>) | Ask | Take

  /** A reader, everything its descriptor has delivered to it, and everything that
      has been taken out of it. */
  datatype Trace = Trace(r: Reader, fed: string, taken: seq<string>)

  const Start := Trace(Initial, [], [])

  lemma {:induction false} FillExtends(r: Reader, results: seq<Read>)
    ensures var r' := Fill(r, results).0;
            && r.buf <= r'.buf && r'.scanned == r.scanned
            && r'.framed == r.framed && r'.detected == r.detected
    ensures |r.buf| <= MAX_BUFFERED ==> |Fill(r, results).0.buf| <= MAX_BUFFERED
    decreases |results|
  {
    if results != [] {
      match results[0] {
        case Data(chunk) =>
          if |r.buf| + |chunk| <= MAX_BUFFERED { FillExtends(r.(buf := r.buf + chunk), results[1..]); }
        case Interrupted => FillExtends(r, results[1..]);
        case _ =>
      }
    }
  }

  function Step(t: Trace, op: Op): Trace {
    match op
    case Deliver(results) =>
      FillExtends(t.r, results);
      var r' := Fill(t.r, results).0;
      Trace(r', t.fed + r'.buf[|t.r.buf|..], t.taken)
    case Ask => t.(r := HasLine(t.r).0)
    case Take =>
      var (r', line) := GetLine(t.r);
      t.(r := r', taken := if line.Some? then t.taken + [line.value] else t.taken)
  }

  function Play(ops: seq<Op>): Trace {
    if ops == [] then Start else Step(Play(ops[..|ops| - 1]), ops[|ops| - 1])
  }

  // ---- Newline mode ---------------------------------------------------------------

  lemma NewlineAt(s: string, i: nat)
    ensures OccursAt(s, "\n", i) <==> i < |s| && s[i] == '\n'
  {
    if i < |s| { assert s[i..i + 1] == [s[i]]; }
  }

  lemma FirstNewline(s: string, from: nat)
    ensures match Find(s, "\n", from)
            case None => forall i | from <= i < |s| :: s[i] != '\n'
            case Some(p) => from <= p < |s| && s[p] == '\n' && forall i | from <= i < p :: s[i] != '\n'
  {
    forall i: nat ensures OccursAt(s, "\n", i) <==> i < |s| && s[i] == '\n' { NewlineAt(s, i); }
  }

  lemma FirstNewlineIs(s: string, from: nat, p: nat)
    requires from <= p < |s| && s[p] == '\n' && forall i | from <= i < p :: s[i] != '\n'
    ensures Find(s, "\n", from) == Some(p)
  {
    FirstNewline(s, from);
  }

  lemma LinesUnfold(s: string, p: nat)
    requires Find(s, "\n", 0) == Some(p)
    ensures Lines(s) == [TrimCr(s[..p])] + Lines(s[p + 1..]) && Tail(s) == Tail(s[p + 1..])
  {
  }

  /** Splitting is insensitive to where the input is cut. */
  lemma {:induction false} LinesAppend(a: string, b: string)
    ensures Lines(a + b) == Lines(a) + Lines(Tail(a) + b)
    ensures Tail(a + b) == Tail(Tail(a) + b)
    decreases |a|
  {
    FirstNewline(a, 0);
    match Find(a, "\n", 0)
    case None => assert [] + Lines(a + b) == Lines(a + b);
    case Some(p) =>
      var rest := a[p + 1..];
      LinesAppend(rest, b);
      LinesUnfold(a, p);
      UnfoldLonger(a, b, p);
      Assoc([TrimCr(a[..p])], Lines(rest), Lines(Tail(rest) + b));
  }

  lemma UnfoldLonger(a: string, b: string, p: nat)
    requires Find(a, "\n", 0) == Some(p)
    ensures Lines(a + b) == [TrimCr(a[..p])] + Lines(a[p + 1..] + b) && Tail(a + b) == Tail(a[p + 1..] + b)
  {
    FirstNewline(a, 0);
    FirstNewlineIs(a + b, 0, p);
    assert (a + b)[p + 1..] == a[p + 1..] + b && (a + b)[..p] == a[..p];
    LinesUnfold(a + b, p);
  }

  /** While the transport is newline-delimited: the lines taken so far and those
      still buffered are the lines of everything delivered, and `scanned` marks a
      prefix of the buffer without newline. */
  ghost predicate NewlineInv(t: Trace) {
    && t.r.scanned <= |t.r.buf|
    && (forall i | 0 <= i < t.r.scanned :: t.r.buf[i] != '\n')
    && Lines(t.fed) == t.taken + Lines(t.r.buf)
    && Tail(t.fed) == Tail(t.r.buf)
  }

  lemma ScannedFinds(r: Reader)
    requires r.scanned <= |r.buf| && forall i | 0 <= i < r.scanned :: r.buf[i] != '\n'
    ensures Find(r.buf, "\n", r.scanned) == Find(r.buf, "\n", 0)
    ensures Find(r.buf, "\n", 0).None? ==> forall i | 0 <= i < |r.buf| :: r.buf[i] != '\n'
  {
    FirstNewline(r.buf, 0);
    FirstNewline(r.buf, r.scanned);
  }

  lemma DeliverKeepsNewline(t: Trace, results: seq<Read>)
    requires NewlineInv(t)
    ensures NewlineInv(Step(t, Deliver(results)))
  {
    FillExtends(t.r, results);
    var r' := Fill(t.r, results).0;
    var more := r'.buf[|t.r.buf|..];
    assert r'.buf == t.r.buf + more;
    LinesAppend(t.fed, more);
    LinesAppend(t.r.buf, more);
    Assoc(t.taken, Lines(t.r.buf), Lines(Tail(t.r.buf) + more));
  }

  lemma GetNewlineTakesALine(r: Reader)
    requires r.scanned <= |r.buf| && forall i | 0 <= i < r.scanned :: r.buf[i] != '\n'
    ensures var (r', line) := GetNewline(r);
            && r'.scanned <= |r'.buf| && (forall i | 0 <= i < r'.scanned :: r'.buf[i] != '\n')
            && Tail(r.buf) == Tail(r'.buf)
            && Lines(r.buf) == (if line.Some? then [line.value] else []) + Lines(r'.buf)
  {
    ScannedFinds(r);
    FirstNewline(r.buf, 0);
    var p := Find(r.buf, "\n", 0);
    if p.Some? { LinesUnfold(r.buf, p.value); }
  }

  lemma TakeKeepsNewline(t: Trace)
    requires NewlineInv(t) && !Step(t, Take).r.framed
    ensures NewlineInv(Step(t, Take))
  {
    var d := Detect(t.r);
    assert !d.framed && d.buf == t.r.buf && d.scanned == t.r.scanned;
    GetNewlineTakesALine(d);
    var r', line := GetNewline(d).0, GetNewline(d).1;
    assert GetLine(t.r).0 == r' && GetLine(t.r).1 == line;
    if line.Some? {
      Assoc(t.taken, [line.value], Lines(r'.buf));
      assert Step(t, Take) == t.(r := r', taken := t.taken + [line.value]);
    } else {
      assert [] + Lines(r'.buf) == Lines(r'.buf);
      assert Step(t, Take) == t.(r := r');
    }
  }

  lemma AskKeepsNewline(t: Trace)
    requires NewlineInv(t) && !Step(t, Ask).r.framed
    ensures NewlineInv(Step(t, Ask))
  {
    ScannedFinds(t.r);
  }

  lemma {:induction false} NewlineRuns(ops: seq<Op>)
    requires !Play(ops).r.framed
    ensures NewlineInv(Play(ops))
  {
    if ops != [] {
      var t, op := Play(ops[..|ops| - 1]), ops[|ops| - 1];
      FramedStays(t, op);
      NewlineRuns(ops[..|ops| - 1]);
      match op
      case Deliver(results) => DeliverKeepsNewline(t, results);
      case Ask => AskKeepsNewline(t);
      case Take => TakeKeepsNewline(t);
    }
  }

  lemma FramedStays(t: Trace, op: Op)
    ensures t.r.framed ==> Step(t, op).r.framed
    ensures t.r.detected ==> Step(t, op).r.detected && (Step(t, op).r.framed <==> t.r.framed)
  {
    if op.Deliver? { FillExtends(t.r, op.results); }
  }

  /** The lines handed out are those of splitting everything delivered: all of
      them once no line is left, and a prefix of them before. */
  lemma NewlineModeSplitsTheInput(ops: seq<Op>)
    requires !HasLine(Play(ops).r).0.framed
    ensures Play(ops).taken <= Lines(Play(ops).fed)
    ensures !HasLine(Play(ops).r).1 <==> Play(ops).taken == Lines(Play(ops).fed)
  {
    var t := Play(ops);
    NewlineRuns(ops);
    ScannedFinds(t.r);
    assert Lines(t.r.buf) == [] <==> Find(t.r.buf, "\n", 0).None?;
    if t.taken == Lines(t.fed) {
      assert |t.taken + Lines(t.r.buf)| == |t.taken| + |Lines(t.r.buf)|;
    }
  }

  // ---- Mode detection ----------------------------------------------------------------

  lemma {:induction false} BlanksOfPrefix(b: string, w: string)
    requires b <= w
    ensures Blanks(b) < |b| ==> Blanks(w) == Blanks(b)
  {
    if b != [] && IsBlank(b[0]) { BlanksOfPrefix(b[1..], w[1..]); }
  }

  lemma SameWithin(b: string, w: string, i: nat)
    requires b <= w
    ensures OccursAt(b, PREFIX, i) <==> OccursAt(w, PREFIX, i) && i + |PREFIX| <= |b|
  {
    if i + |PREFIX| <= |b| { assert b[i..i + |PREFIX|] == w[i..i + |PREFIX|]; }
  }

  /** Deciding on what has arrived gives the mode of the whole stream, except when
      the stream is framed and fewer bytes than the prefix have arrived. */
  lemma ModeFromPartialInput(b: string, w: string)
    requires b <= w && !ModeOf(b).Undecided?
    ensures ModeOf(b) == ModeOf(w) <==> !(ModeOf(w).Framed? && |b| < Blanks(b) + |PREFIX|)
  {
    BlanksOfPrefix(b, w);
    SameWithin(b, w, Blanks(b));
  }

  // ---- Framed mode ---------------------------------------------------------------------

  function Frames(bodies: seq<string>): string {
    if bodies == [] then [] else Message(true, bodies[0]) + Frames(bodies[1..])
  }

  /** Each frame fits the reader's buffer. */
  ghost predicate Fit(bodies: seq<string>) {
    forall b | b in bodies :: |Message(true, b)| <= MAX_BUFFERED
  }

  lemma CrlfAt(s: string, needle: string, i: nat)
    requires OccursAt(s, needle, i) && needle != [] && needle[0] == '\r'
    ensures i < |s| && s[i] == '\r'
  {
    assert s[i..i + |needle|][0] == s[i];
  }

  lemma NoCrFindsNothing(s: string, needle: string)
    requires forall i | 0 <= i < |s| :: s[i] != '\r'
    requires needle != [] && needle[0] == '\r'
    ensures Find(s, needle, 0) == None
  {
    var p := Find(s, needle, 0);
    if p.Some? { CrlfAt(s, needle, p.value); }
  }

  lemma HeaderHasNoCr(body: string)
    ensures forall i | 0 <= i < |Header(body)| :: Header(body)[i] != '\r'
  {
    ToStringDigits(|body|);
  }

  /** The length field reads back the number that was printed. */
  lemma FieldLengthOfHeader(body: string)
    requires |body| < 0x8000_0000
    ensures FieldLength(Header(body)) == Some(|body|)
  {
    var h := Header(body);
    var digits := ToString(|body|);
    ToStringDigits(|body|);
    assert h == "Content-Length" + (":" + " " + digits);
    assert h[14..15] == ":";
    assert OccursAt(h, ":", 14);
    FindColon(h);
    assert h[..14] == "Content-Length";
    assert IsLengthName("Content-Length");
    assert h[15..] == " " + digits && (" " + digits)[1..] == digits;
    assert TrimLeft(" " + digits) == TrimLeft(digits) == digits;
    AtoiOfToString(|body|);
  }

  lemma FindColon(h: string)
    requires |h| > 14 && h[14] == ':' && forall i | 0 <= i < 14 :: h[i] != ':'
    ensures Find(h, ":", 0) == Some(14)
  {
    assert h[14..15] == ":";
    assert OccursAt(h, ":", 14);
    forall i: nat | i < |h| ensures OccursAt(h, ":", i) ==> h[i] == ':' {
      if i + 1 <= |h| { assert h[i..i + 1] == [h[i]]; }
    }
  }

  lemma ContentLengthOfHeader(body: string)
    requires |body| < 0x8000_0000
    ensures ContentLength(Header(body)) == |body|
  {
    HeaderHasNoCr(body);
    NoCrFindsNothing(Header(body), "\r\n");
    FieldLengthOfHeader(body);
    assert Header(body)[..|Header(body)|] == Header(body);
  }

  /** Whatever part of a frame (and of what follows it) has arrived: the reader
      sees the frame when, and only when, it is complete. */
  lemma FrameSeenWhenComplete(buf: string, body: string, rest: string)
    requires buf <= Message(true, body) + rest && |body| < 0x8000_0000
    ensures |buf| >= |Message(true, body)| ==> NextFrame(buf) == Complete(|Header(body)| + 4, |body|)
    ensures |buf| < |Message(true, body)| ==> NextFrame(buf).NoHeader? || NextFrame(buf).Incomplete?
  {
    var h := Header(body);
    HeaderHasNoCr(body);
    ContentLengthOfHeader(body);
    FrameLength(body);
    assert Message(true, body) + rest == h + "\r\n\r\n" + (body + rest);
    HeaderEnd(buf, h, body + rest);
  }

  lemma HeaderEnd(buf: string, h: string, more: string)
    requires buf <= h + "\r\n\r\n" + more && forall i | 0 <= i < |h| :: h[i] != '\r'
    ensures Find(buf, "\r\n\r\n", 0) == if |buf| >= |h| + 4 then Some(|h|) else None
    ensures |buf| >= |h| + 4 ==> buf[..|h|] == h
  {
    var sep := "\r\n\r\n";
    var whole := h + sep + more;
    PartsOf(h, sep, more);
    FirstSeparator(buf, whole, sep, |h|);
    if |buf| >= |h| + 4 { assert buf[..|h|] == whole[..|h|]; }
  }

  lemma PartsOf(h: string, sep: string, more: string)
    ensures var whole := h + sep + more;
            && whole[..|h|] == h && whole[|h|..|h| + |sep|] == sep
            && forall i | 0 <= i < |h| :: whole[i] == h[i]
  {
  }

  lemma FirstSeparator(buf: string, whole: string, sep: string, p: nat)
    requires buf <= whole && sep != [] && OccursAt(whole, sep, p) && forall i | 0 <= i < p :: whole[i] != sep[0]
    ensures Find(buf, sep, 0) == if |buf| >= p + |sep| then Some(p) else None
  {
    var q := Find(buf, sep, 0);
    if q.Some? { assert buf[q.value] == buf[q.value..q.value + |sep|][0] == sep[0]; }
    if |buf| >= p + |sep| {
      assert buf[p..p + |sep|] == whole[p..p + |sep|];
      assert OccursAt(buf, sep, p);
    }
  }

  /** While frames arrive: what was taken is the first `k` bodies, and the buffer
      holds the rest of what was delivered. */
  ghost predicate FramedInv(t: Trace, bodies: seq<string>, k: nat) {
    && k <= |bodies| && t.taken == bodies[..k]
    && t.fed == Frames(bodies[..k]) + t.r.buf
    && t.r.buf <= Frames(bodies[k..])
    && (t.r.detected ==> t.r.framed)
    && (!t.r.detected ==> k == 0 && !t.r.framed)
    && (t.r.buf == [] || t.r.detected || t.r.scanned == 0)
    && (!t.r.detected ==> t.r.scanned == 0)
  }

  /** The mode is open and some bytes of a prefix are there, but not all. */
  predicate TooEarly(r: Reader) {
    !r.detected && 0 < |r.buf| < |PREFIX|
  }

  /** The reader was asked at such a moment. */
  ghost predicate AskedTooEarly(ops: seq<Op>) {
    ops != [] &&
    (AskedTooEarly(ops[..|ops| - 1])
     || (!ops[|ops| - 1].Deliver? && TooEarly(Play(ops[..|ops| - 1]).r)))
  }

  lemma {:induction false} FramesAppend(a: seq<string>, b: seq<string>)
    ensures Frames(a + b) == Frames(a) + Frames(b)
  {
    if a == [] {
      assert a + b == b;
    } else {
      FramesAppend(a[1..], b);
      FirstFrame(a, Message(true, a[0]));
      assert (a + b)[0] == a[0] && (a + b)[1..] == a[1..] + b;
      FirstFrame(a + b, Message(true, a[0]));
      Assoc(Message(true, a[0]), Frames(a[1..]), Frames(b));
    }
  }

  lemma FirstFrame(bodies: seq<string>, m: string)
    requires bodies != [] && m == Message(true, bodies[0])
    ensures Frames(bodies) == m + Frames(bodies[1..])
  {
  }

  lemma FramesBegin(bodies: seq<string>)
    requires bodies != []
    ensures |PREFIX| <= |Frames(bodies)| && Frames(bodies)[..|PREFIX|] == PREFIX
  {
    assert "Content-Length: "[..|PREFIX|] == PREFIX;
    assert Frames(bodies)[..|PREFIX|] == Header(bodies[0])[..|PREFIX|];
  }

  lemma DetectsFrames(r: Reader, bodies: seq<string>)
    requires r.buf <= Frames(bodies) && !r.detected && |r.buf| >= |PREFIX|
    ensures Detect(r) == r.(detected := true, framed := true)
  {
    FramesBegin(bodies);
    assert r.buf[..|PREFIX|] == PREFIX;
    assert Blanks(r.buf) == 0;
    assert OccursAt(r.buf, PREFIX, 0);
  }

  lemma SplitBodies(bodies: seq<string>, k: nat)
    requires k < |bodies|
    ensures Frames(bodies[k..]) == Message(true, bodies[k]) + Frames(bodies[k + 1..])
    ensures Frames(bodies[..k + 1]) == Frames(bodies[..k]) + Message(true, bodies[k])
  {
    assert bodies[k..][1..] == bodies[k + 1..];
    assert bodies[..k + 1] == bodies[..k] + [bodies[k]];
    FramesAppend(bodies[..k], [bodies[k]]);
    assert [bodies[k]][1..] == [];
    assert Frames([bodies[k]]) == Message(true, bodies[k]) + Frames([]);
  }

  lemma TakeOneFrame(buf: string, body: string, rest: string)
    requires buf <= Message(true, body) + rest && |body| < 0x8000_0000 && |buf| >= |Message(true, body)|
    ensures NextFrame(buf) == Complete(|Header(body)| + 4, |body|)
    ensures buf == Message(true, body) + buf[|Header(body)| + 4 + |body|..]
    ensures buf[|Header(body)| + 4..|Header(body)| + 4 + |body|] == body
    ensures buf[|Header(body)| + 4 + |body|..] <= rest
  {
    FrameSeenWhenComplete(buf, body, rest);
    BehindPrefix(buf, Message(true, body), rest);
    BehindPrefix(Message(true, body), Header(body) + "\r\n\r\n", body);
  }

  lemma BehindPrefix(buf: string, front: string, rest: string)
    requires |front| <= |buf| && buf <= front + rest
    ensures buf == front + buf[|front|..] && buf[|front|..] <= rest
    ensures forall i, j | 0 <= i <= j <= |front| :: buf[i..j] == front[i..j]
  {
    assert buf[..|front|] == (front + rest)[..|front|] == front;
    assert buf[|front|..] == rest[..|buf| - |front|];
    forall i, j | 0 <= i <= j <= |front| ensures buf[i..j] == front[i..j] {
      assert buf[i..j] == buf[..|front|][i..j];
    }
  }

  lemma TakeCompleteFrame(t: Trace, bodies: seq<string>, k: nat)
    requires FramedInv(t, bodies, k) && Fit(bodies) && t.r.detected
    requires k < |bodies| && |t.r.buf| >= |Message(true, bodies[k])|
    ensures FramedInv(Step(t, Take), bodies, k + 1)
  {
    var body := bodies[k];
    SplitBodies(bodies, k);
    assert body in bodies;
    TakeOneFrame(t.r.buf, body, Frames(bodies[k + 1..]));
    var rest := t.r.buf[|Header(body)| + 4 + |body|..];
    FrameLength(body);
    Assoc(Frames(bodies[..k]), Message(true, body), rest);
    TakesComplete(t, body, rest);
    AfterFrame(t, Step(t, Take), bodies, k, rest);
  }

  lemma AfterFrame(t: Trace, t': Trace, bodies: seq<string>, k: nat, rest: string)
    requires FramedInv(t, bodies, k) && t.r.detected && k < |bodies|
    requires t' == t.(r := t.r.(buf := rest), taken := t.taken + [bodies[k]])
    requires t.fed == Frames(bodies[..k + 1]) + rest && rest <= Frames(bodies[k + 1..])
    ensures FramedInv(t', bodies, k + 1)
  {
    TakenOneMore(bodies, k);
  }

  lemma TakenOneMore(bodies: seq<string>, k: nat)
    requires k < |bodies|
    ensures bodies[..k + 1] == bodies[..k] + [bodies[k]]
  {
  }

  lemma FrameLength(body: string)
    ensures |Message(true, body)| == |Header(body)| + 4 + |body|
  {
  }

  lemma TakesComplete(t: Trace, body: string, rest: string)
    requires t.r.detected && t.r.framed && NextFrame(t.r.buf) == Complete(|Header(body)| + 4, |body|)
    requires |t.r.buf| >= |Header(body)| + 4 + |body| && rest == t.r.buf[|Header(body)| + 4 + |body|..]
    requires t.r.buf[|Header(body)| + 4..|Header(body)| + 4 + |body|] == body
    ensures Step(t, Take) == t.(r := t.r.(buf := rest), taken := t.taken + [body])
  {
  }

  lemma TakeKeepsFramed(t: Trace, bodies: seq<string>, k: nat)
    requires FramedInv(t, bodies, k) && Fit(bodies) && t.r.detected
    ensures FramedInv(Step(t, Take), bodies, k) || FramedInv(Step(t, Take), bodies, k + 1)
  {
    if t.r.buf == [] || k == |bodies| {
      assert k == |bodies| ==> bodies[k..] == [];
      assert NextFrame([]) == NoHeader;
    } else {
      var body := bodies[k];
      SplitBodies(bodies, k);
      assert body in bodies;
      FrameSeenWhenComplete(t.r.buf, body, Frames(bodies[k + 1..]));
      if |t.r.buf| >= |Message(true, body)| { TakeCompleteFrame(t, bodies, k); }
    }
  }

  lemma DetectKeepsFramed(t: Trace, bodies: seq<string>, k: nat)
    requires FramedInv(t, bodies, k)
    requires !TooEarly(t.r)
    ensures FramedInv(t.(r := Detect(t.r)), bodies, k)
    ensures Detect(t.r).detected || t.r.buf == []
  {
    if !t.r.detected && t.r.buf != [] {
      assert bodies[0..] == bodies;
      DetectsFrames(t.r, bodies);
    }
  }

  lemma {:induction false} PrefixOfSum(a: string, b: string, x: string)
    requires a + x <= a + b
    ensures x <= b
  {
    assert x == (a + x)[|a|..] && b == (a + b)[|a|..];
    assert (a + x) == (a + b)[..|a + x|];
  }

  lemma DeliverKeepsFramed(t: Trace, results: seq<Read>, bodies: seq<string>, k: nat)
    requires FramedInv(t, bodies, k)
    requires Step(t, Deliver(results)).fed <= Frames(bodies)
    ensures FramedInv(Step(t, Deliver(results)), bodies, k)
  {
    FillExtends(t.r, results);
    var t' := Step(t, Deliver(results));
    var more := t'.r.buf[|t.r.buf|..];
    assert t'.r.buf == t.r.buf + more;
    Assoc(Frames(bodies[..k]), t.r.buf, more);
    StillFrames(bodies, k, t'.r.buf);
  }

  lemma StillFrames(bodies: seq<string>, k: nat, buf: string)
    requires k <= |bodies| && Frames(bodies[..k]) + buf <= Frames(bodies)
    ensures buf <= Frames(bodies[k..])
  {
    FramesSplit(bodies, k);
    PrefixOfSum(Frames(bodies[..k]), Frames(bodies[k..]), buf);
  }

  lemma FedGrows(t: Trace, op: Op)
    ensures t.fed <= Step(t, op).fed
  {
  }

  /** However the frames are cut into deliveries, and whenever the reader is asked
      except too early: what was taken is always the first bodies, in order. */
  lemma {:induction false} FramedRuns(ops: seq<Op>, bodies: seq<string>) returns (k: nat)
    requires Fit(bodies) && Play(ops).fed <= Frames(bodies) && !AskedTooEarly(ops)
    ensures FramedInv(Play(ops), bodies, k)
  {
    if ops == [] {
      k := 0;
      assert bodies[..0] == [];
    } else {
      var front, op := ops[..|ops| - 1], ops[|ops| - 1];
      FedGrows(Play(front), op);
      k := FramedRuns(front, bodies);
      k := StepKeepsFramed(Play(front), op, bodies, k);
    }
  }

  lemma StepKeepsFramed(t: Trace, op: Op, bodies: seq<string>, k: nat) returns (k': nat)
    requires FramedInv(t, bodies, k) && Fit(bodies)
    requires Step(t, op).fed <= Frames(bodies)
    requires op.Deliver? || !TooEarly(t.r)
    ensures FramedInv(Step(t, op), bodies, k')
  {
    k' := k;
    match op {
      case Deliver(results) => DeliverKeepsFramed(t, results, bodies, k);
      case Ask => DetectKeepsFramed(t, bodies, k);
      case Take =>
        DetectKeepsFramed(t, bodies, k);
        k' := TakeStepKeepsFramed(t, t.(r := Detect(t.r)), bodies, k);
    }
  }

  lemma TakeStepKeepsFramed(t: Trace, d: Trace, bodies: seq<string>, k: nat) returns (k': nat)
    requires d == t.(r := Detect(t.r)) && FramedInv(d, bodies, k) && Fit(bodies)
    requires d.r.detected || t.r.buf == []
    ensures FramedInv(Step(t, Take), bodies, k')
  {
    k' := k;
    TakeDetectsFirst(t, d);
    if d.r.detected {
      TakeKeepsFramed(d, bodies, k);
      if !FramedInv(Step(d, Take), bodies, k) { k' := k + 1; }
    } else {
      NothingToTake(t, d);
    }
  }

  lemma TakeDetectsFirst(t: Trace, d: Trace)
    requires d == t.(r := Detect(t.r))
    ensures d.r.detected ==> Step(t, Take) == Step(d, Take)
  {
  }

  lemma NothingToTake(t: Trace, d: Trace)
    requires d == t.(r := Detect(t.r)) && !d.r.detected && t.r.buf == []
    ensures Step(t, Take).fed == d.fed && Step(t, Take).taken == d.taken
    ensures !d.r.framed ==> Step(t, Take).r == d.r.(scanned := 0)
  {
  }

  /** Framed transport undoes framed writing: when everything written has been
      delivered and the reader sees no further line, the bodies taken are exactly
      the bodies written, in order, and nothing is left in the buffer. */
  lemma FramedRoundTrip(ops: seq<Op>, bodies: seq<string>)
    requires Fit(bodies) && !AskedTooEarly(ops)
    requires Play(ops).fed == Frames(bodies)
    ensures Play(ops).taken <= bodies
    ensures !HasLine(Play(ops).r).1 <==> Play(ops).taken == bodies
    ensures Play(ops).taken == bodies ==> Play(ops).r.buf == []
  {
    var k := FramedRuns(ops, bodies);
    RestIsBuffered(Play(ops), bodies, k);
    if k < |bodies| { LineLeft(Play(ops), bodies, k); } else { NoLineLeft(Play(ops), bodies); }
  }

  lemma RestIsBuffered(t: Trace, bodies: seq<string>, k: nat)
    requires FramedInv(t, bodies, k) && t.fed == Frames(bodies)
    ensures t.r.buf == Frames(bodies[k..])
  {
    FramesSplit(bodies, k);
    SumCancels(Frames(bodies[..k]), t.r.buf, Frames(bodies[k..]), Frames(bodies));
  }

  lemma FramesSplit(bodies: seq<string>, k: nat)
    requires k <= |bodies|
    ensures Frames(bodies) == Frames(bodies[..k]) + Frames(bodies[k..])
  {
    assert bodies == bodies[..k] + bodies[k..];
    FramesOfBoth(bodies, bodies[..k], bodies[k..]);
  }

  lemma FramesOfBoth(bodies: seq<string>, a: seq<string>, b: seq<string>)
    requires bodies == a + b
    ensures Frames(bodies) == Frames(a) + Frames(b)
  {
    FramesAppend(a, b);
  }

  lemma SumCancels(a: string, b: string, c: string, whole: string)
    requires whole == a + b && whole == a + c
    ensures b == c
  {
    assert b == whole[|a|..] && c == whole[|a|..];
  }

  lemma LineLeft(t: Trace, bodies: seq<string>, k: nat)
    requires FramedInv(t, bodies, k) && Fit(bodies) && k < |bodies| && t.r.buf == Frames(bodies[k..])
    ensures HasLine(t.r).1
  {
    FramesBegin(bodies[k..]);
    DetectKeepsFramed(t, bodies, k);
    SplitBodies(bodies, k);
    assert bodies[k] in bodies;
    FrameSeenWhenComplete(t.r.buf, bodies[k], Frames(bodies[k + 1..]));
  }

  lemma NoLineLeft(t: Trace, bodies: seq<string>)
    requires FramedInv(t, bodies, |bodies|) && t.r.buf == []
    ensures !HasLine(t.r).1
  {
    assert NextFrame([]) == NoHeader;
  }

  // ---- Asked too early ---------------------------------------------------------------

  /** Then the reader has fixed newline mode for good. */
  lemma {:induction false} EarlyAskFixesNewlineMode(ops: seq<Op>, bodies: seq<string>)
    requires Fit(bodies) && Play(ops).fed <= Frames(bodies) && AskedTooEarly(ops)
    ensures Play(ops).r.detected && !Play(ops).r.framed
  {
    var front, op := ops[..|ops| - 1], ops[|ops| - 1];
    var t := Play(front);
    FedGrows(t, op);
    FramedStays(t, op);
    if AskedTooEarly(front) {
      EarlyAskFixesNewlineMode(front, bodies);
    } else {
      var k := FramedRuns(front, bodies);
      assert bodies[0..] == bodies;
      ShortStartIsNotFramed(t.r, bodies);
    }
  }

  lemma ShortStartIsNotFramed(r: Reader, bodies: seq<string>)
    requires TooEarly(r) && r.buf <= Frames(bodies)
    ensures Detect(r).detected && Detect(r).framed == r.framed
  {
    FramesBegin(bodies);
    assert r.buf[0] == Frames(bodies)[..|PREFIX|][0];
    assert Blanks(r.buf) == 0;
  }

  function LineFeeds(s: string): nat {
    if s == [] then 0 else (if s[0] == '\n' then 1 else 0) + LineFeeds(s[1..])
  }

  lemma {:induction false} LineFeedsAdd(a: string, b: string)
    ensures LineFeeds(a + b) == LineFeeds(a) + LineFeeds(b)
  {
    if a == [] {
      assert a + b == b;
    } else {
      LineFeedsAdd(a[1..], b);
      assert (a + b)[1..] == a[1..] + b;
    }
  }

  lemma {:induction false} NoLineFeeds(s: string)
    requires forall i | 0 <= i < |s| :: s[i] != '\n'
    ensures LineFeeds(s) == 0
  {
    if s != [] { NoLineFeeds(s[1..]); }
  }

  lemma {:induction false} LinesCountLineFeeds(s: string)
    ensures |Lines(s)| == LineFeeds(s)
    decreases |s|
  {
    FirstNewline(s, 0);
    match Find(s, "\n", 0)
    case None => NoLineFeeds(s);
    case Some(p) =>
      LinesUnfold(s, p);
      LinesCountLineFeeds(s[p + 1..]);
      NoLineFeeds(s[..p]);
      LineFeedsAdd(s[..p], s[p..]);
      assert s == s[..p] + s[p..] && s[p..][1..] == s[p + 1..];
  }

  lemma {:induction false} FramesHoldTwoLinesEach(bodies: seq<string>)
    ensures LineFeeds(Frames(bodies)) >= 2 * |bodies|
  {
    if bodies != [] {
      var h, b := Header(bodies[0]), bodies[0];
      FramesHoldTwoLinesEach(bodies[1..]);
      LineFeedsAdd(Message(true, b), Frames(bodies[1..]));
      LineFeedsAdd(h + "\r\n\r\n", b);
      LineFeedsAdd(h, "\r\n\r\n");
      TwoLineFeeds();
    }
  }

  lemma TwoLineFeeds()
    ensures LineFeeds("\r\n\r\n") == 2
  {
    assert "\r\n\r\n"[1..] == "\n\r\n" && "\n\r\n"[1..] == "\r\n" && "\r\n"[1..] == "\n" && "\n"[1..] == "";
  }

  /** With all frames delivered and no line left, the bodies have come back if and
      only if the reader was never asked while it held one to fourteen bytes of the
      first prefix. */
  lemma FramedRoundTripIff(ops: seq<Op>, bodies: seq<string>)
    requires Fit(bodies) && bodies != []
    requires Play(ops).fed == Frames(bodies) && !HasLine(Play(ops).r).1
    ensures Play(ops).taken == bodies && Play(ops).r.buf == [] <==> !AskedTooEarly(ops)
  {
    if AskedTooEarly(ops) {
      EarlyAskFixesNewlineMode(ops, bodies);
      NewlineModeSplitsTheInput(ops);
      LinesCountLineFeeds(Frames(bodies));
      FramesHoldTwoLinesEach(bodies);
    } else {
      FramedRoundTrip(ops, bodies);
    }
  }

  /** The frame of "{}" in two deliveries, the reader asked in between. */
  lemma ShortFirstRead()
    ensures var ops := [Deliver([Data("Con")]), Ask, Deliver([Data("tent-Length: 2\r\n\r\n{}")])];
            && Play(ops).fed == Message(true, "{}") && ModeOf(Play(ops).fed).Framed?
            && Play(ops).r.detected && !Play(ops).r.framed
  {
    var rest := "tent-Length: 2\r\n\r\n{}";
    ThreeOps(Deliver([Data("Con")]), Ask, Deliver([Data(rest)]));
    Delivered(Start, "Con");
    var r := AskedAtCon();
    Delivered(Trace(r, "Con", []), rest);
    assert [] + "Con" == "Con";
    FrameOfBraces(rest);
  }

  lemma ThreeOps(a: Op, b: Op, c: Op)
    ensures Play([a, b, c]) == Step(Step(Step(Start, a), b), c)
  {
    assert [a][..0] == [] && [a, b][..1] == [a] && [a, b, c][..2] == [a, b];
    assert Play([a]) == Step(Play([]), a);
    assert Play([a, b]) == Step(Play([a]), b);
  }

  lemma AskedAtCon() returns (r: Reader)
    ensures r == HasLine(Initial.(buf := "Con")).0 && r.buf == "Con" && r.detected && !r.framed
  {
    assert Blanks("Con") == 0 && !OccursAt("Con", PREFIX, 0);
    NoLineFeedIn("Con");
    r := HasLine(Initial.(buf := "Con")).0;
  }

  lemma FrameOfBraces(rest: string)
    requires rest == "tent-Length: 2\r\n\r\n{}"
    ensures "Con" + rest == Message(true, "{}") && ModeOf(Message(true, "{}")).Framed?
  {
    HeaderOfTwo();
    assert "Con" + rest == "Content-Length: 2" + "\r\n\r\n" + "{}";
    MessageStart("{}");
    BeginsFramed(Message(true, "{}"));
  }

  lemma HeaderOfTwo()
    ensures Header("{}") == "Content-Length: 2"
  {
    assert ToString(2) == "2";
  }

  lemma MessageStart(body: string)
    ensures PREFIX <= Message(true, body)
  {
    assert PREFIX <= Header(body);
  }

  lemma BeginsFramed(s: string)
    requires PREFIX <= s
    ensures ModeOf(s).Framed?
  {
    assert s[0] == 'C' && Blanks(s) == 0;
  }

  lemma NoLineFeedIn(s: string)
    requires forall i | 0 <= i < |s| :: s[i] != '\n'
    ensures Find(s, "\n", 0).None?
  {
    FirstNewline(s, 0);
  }

  lemma Delivered(t: Trace, chunk: string)
    requires |t.r.buf| + |chunk| <= MAX_BUFFERED
    ensures Step(t, Deliver([Data(chunk)])) == Trace(t.r.(buf := t.r.buf + chunk), t.fed + chunk, t.taken)
  {
    assert [Data(chunk)][1..] == [];
    assert Fill(t.r.(buf := t.r.buf + chunk), []) == (t.r.(buf := t.r.buf + chunk), true);
    assert (t.r.buf + chunk)[|t.r.buf|..] == chunk;
  }

  // ---- A malformed header ------------------------------------------------------------

  lemma FindInPrefix(a: string, b: string, needle: string)
    requires Find(a, needle, 0).Some?
    ensures Find(a + b, needle, 0) == Find(a, needle, 0)
  {
    var p := Find(a, needle, 0).value;
    assert (a + b)[p..p + |needle|] == a[p..p + |needle|];
    assert OccursAt(a + b, needle, p);
    var q := Find(a + b, needle, 0).value;
    if q < p {
      assert (a + b)[q..q + |needle|] == a[q..q + |needle|];
      assert OccursAt(a, needle, q);
      assert false;
    }
  }

  /** Once the first header block carries no usable length, has_line stays false
      whatever arrives: the branch of get_line that would skip the block is reached
      only by a caller that does not ask first. */
  lemma MalformedHeaderBlocksTheReader(r: Reader, more: string)
    requires r.framed && r.detected && NextFrame(r.buf).Malformed?
    ensures !HasLine(r.(buf := r.buf + more)).1
  {
    FindInPrefix(r.buf, more, "\r\n\r\n");
    var p := Find(r.buf, "\r\n\r\n", 0).value;
    assert (r.buf + more)[..p] == r.buf[..p];
  }

  lemma FieldAfterNewline(body: string)
    ensures FieldLength("\n" + Header(body)) == None
  {
    var h := "\n" + Header(body);
    assert h == "\nContent-Length" + (":" + " " + ToString(|body|));
    assert h[14] == 'h';
    var colon := Find(h, ":", 0);
    if colon.Some? {
      assert h[colon.value..colon.value + 1][0] == h[colon.value];
      assert |h[..colon.value]| != 14;
    }
  }

  lemma HeaderAfterNewline(body: string)
    ensures Find("\n" + Message(true, body), "\r\n\r\n", 0) == Some(|Header(body)| + 1)
    ensures ContentLength("\n" + Header(body)) == -1
  {
    var s, h := "\n" + Message(true, body), "\n" + Header(body);
    HeaderHasNoCr(body);
    assert s == h + "\r\n\r\n" + body;
    assert s[|h|..|h| + 4] == "\r\n\r\n";
    assert OccursAt(s, "\r\n\r\n", |h|);
    var p := Find(s, "\r\n\r\n", 0).value;
    CrlfAt(s, "\r\n\r\n", p);
    assert forall i | 0 <= i < |h| :: s[i] == h[i] && h[i] != '\r';
    NoCrFindsNothing(h, "\r\n");
    assert h[..|h|] == h;
    FieldAfterNewline(body);
  }

  /** A bare line feed in front of the first frame is skipped by mode detection but
      not by the header parser, and has that effect. */
  lemma MalformedHeaderIsDropped(r: Reader, hdr: string, rest: string)
    requires r.detected && r.framed && r.buf == hdr + ("\r\n\r\n" + rest)
    requires Find(r.buf, "\r\n\r\n", 0) == Some(|hdr|) && ContentLength(hdr) < 0
    ensures GetLine(r) == (r.(buf := rest), None)
  {
    assert r.buf[..|hdr|] == hdr && r.buf[|hdr| + 4..] == rest;
  }

  lemma LeadingNewlineIsMalformed(body: string)
    ensures ModeOf("\n" + Message(true, body)).Framed?
    ensures NextFrame("\n" + Message(true, body)).Malformed?
  {
    var s := "\n" + Message(true, body);
    HeaderAfterNewline(body);
    assert s[..|Header(body)| + 1] == "\n" + Header(body);
    assert s[1..] == Message(true, body);
    FramesBegin([body]);
    assert [body][1..] == [];
    assert Frames([body]) == Message(true, body) + Frames([]) == Message(true, body);
    assert s[1..1 + |PREFIX|] == s[1..][..|PREFIX|] == PREFIX;
    assert s[1] == 'C' && Blanks(s[1..]) == 0 && Blanks(s) == 1;
    assert OccursAt(s, PREFIX, 1);
  }
}
