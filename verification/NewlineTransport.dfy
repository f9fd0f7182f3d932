/** Newline-delimited transport: what was written line by line comes back. */
module NewlineTransport {
  import opened Requests
  import opened Text
  import opened LineReader
  import opened TransportTheorems

  /** What the descriptor delivered among these results. */
  function Delivered(results: seq<Read>): string {
    if results == [] then []
    else (if results[0].Data? then results[0].chunk else []) + Delivered(results[1..])
  }

  /** Filling has stopped at result `k`, or gone through all of them. */
  ghost predicate FillStops(r: Reader, results: seq<Read>, k: nat) {
    && k <= |results| && (forall i | 0 <= i < k :: results[i].Data? || results[i].Interrupted?)
    && Fill(r, results).0.buf == r.buf + Delivered(results[..k])
    && (k < |results| ==> IsStop(r.buf + Delivered(results[..k]), results[k]))
    && (Fill(r, results).1 <==> k == |results| || results[k].WouldBlock?)
    && (Fill(r, results).0.eof <==> r.eof || !Fill(r, results).1)
    && (Fill(r, results).0.overflowed <==> r.overflowed || (k < |results| && results[k].Data?))
  }

  predicate IsStop(buf: string, result: Read) {
    result.WouldBlock? || result.EndOfFile? || result.Failed?
    || (result.Data? && |buf| + |result.chunk| > MAX_BUFFERED)
  }

  /** Filling takes the results up to the first that ends it, and appends all their
      data.  It answers false exactly at the end of the file, at an error or at a
      chunk too large for the buffer, and then input has ended; only the last of
      these counts as an overflow. */
  lemma {:induction false} FillTakesUntilStop(r: Reader, results: seq<Read>) returns (k: nat)
    ensures FillStops(r, results, k)
    decreases |results|
  {
    k := 0;
    assert results[..0] == [] && r.buf + [] == r.buf;
    if results != [] && !IsStop(r.buf, results[0]) {
      var r' := r.(buf := r.buf + if results[0].Data? then results[0].chunk else []);
      k := FillTakesUntilStop(r', results[1..]);
      FillGoesOn(r, r', results, k);
      k := k + 1;
    }
  }

  lemma FillGoesOn(r: Reader, r': Reader, results: seq<Read>, k: nat)
    requires results != [] && !IsStop(r.buf, results[0]) && FillStops(r', results[1..], k)
    requires r' == r.(buf := r.buf + if results[0].Data? then results[0].chunk else [])
    ensures FillStops(r, results, k + 1)
  {
    var first, rest := if results[0].Data? then results[0].chunk else [], results[1..];
    assert r.buf + [] == r.buf;
    assert Fill(r, results) == Fill(r', rest);
    assert results[..k + 1][1..] == rest[..k] && results[..k + 1][0] == results[0];
    Assoc(r.buf, first, Delivered(rest[..k]));
    forall i | 0 <= i < k + 1 ensures results[i].Data? || results[i].Interrupted? {
      if i > 0 { assert results[i] == rest[i - 1]; }
    }
    if k + 1 < |results| { assert results[k + 1] == rest[k]; }
  }

  // ---- Lines ------------------------------------------------------------------------

  predicate HasNoLf(s: string) {
    forall i | 0 <= i < |s| :: s[i] != '\n'
  }

  predicate EndsInCr(s: string) {
    s != [] && s[|s| - 1] == '\r'
  }

  /** Each body and its line end: LF, or CR LF where `crs` says so. */
  function Written(bodies: seq<string>, crs: seq<bool>): string
    requires |bodies| == |crs|
  {
    if bodies == [] then []
    else (bodies[0] + if crs[0] then "\r\n" else "\n") + Written(bodies[1..], crs[1..])
  }

  /** What write_msg writes. */
  lemma {:induction false} WrittenByServer(bodies: seq<string>)
    ensures Written(bodies, seq(|bodies|, i => false)) == LinesSent(bodies)
  {
    if bodies != [] {
      assert seq(|bodies|, i => false)[1..] == seq(|bodies| - 1, i => false);
      WrittenByServer(bodies[1..]);
    }
  }

  function LinesSent(bodies: seq<string>): string {
    if bodies == [] then [] else Message(false, bodies[0]) + LinesSent(bodies[1..])
  }

  lemma OneLine(body: string, cr: bool, rest: string)
    requires HasNoLf(body)
    ensures var s := (body + if cr then "\r\n" else "\n") + rest;
            && Lines(s) == [if cr then body else TrimCr(body)] + Lines(rest) && Tail(s) == Tail(rest)
  {
    var s := (body + if cr then "\r\n" else "\n") + rest;
    var p := if cr then |body| + 1 else |body|;
    FirstNewlineIs(s, 0, p);
    LinesUnfold(s, p);
    assert s[p + 1..] == rest;
    if cr { assert s[..p] == body + "\r" && TrimCr(body + "\r") == body; } else { assert s[..p] == body; }
  }

  /** What is read of a written line. */
  function ReadBack(bodies: seq<string>, crs: seq<bool>): seq<string>
    requires |bodies| == |crs|
  {
    seq(|bodies|, i requires 0 <= i < |bodies| => if crs[i] then bodies[i] else TrimCr(bodies[i]))
  }

  lemma {:induction false} LinesAreReadBack(bodies: seq<string>, crs: seq<bool>)
    requires |bodies| == |crs| && forall i | 0 <= i < |bodies| :: HasNoLf(bodies[i])
    ensures Lines(Written(bodies, crs)) == ReadBack(bodies, crs) && Tail(Written(bodies, crs)) == []
  {
    if bodies != [] {
      LinesAreReadBack(bodies[1..], crs[1..]);
      OneLine(bodies[0], crs[0], Written(bodies[1..], crs[1..]));
      ReadBackFirst(bodies, crs);
    }
  }

  lemma ReadBackFirst(bodies: seq<string>, crs: seq<bool>)
    requires |bodies| == |crs| && bodies != []
    ensures ReadBack(bodies, crs) ==
            [if crs[0] then bodies[0] else TrimCr(bodies[0])] + ReadBack(bodies[1..], crs[1..])
  {
  }

  /** The lines of what was written are the bodies, if and only if no body that was
      ended by a bare LF ends in CR itself. */
  lemma LinesOfWritten(bodies: seq<string>, crs: seq<bool>)
    requires |bodies| == |crs| && forall i | 0 <= i < |bodies| :: HasNoLf(bodies[i])
    ensures |Lines(Written(bodies, crs))| == |bodies| && Tail(Written(bodies, crs)) == []
    ensures Lines(Written(bodies, crs)) == bodies
            <==> forall i | 0 <= i < |bodies| :: EndsInCr(bodies[i]) ==> crs[i]
  {
    LinesAreReadBack(bodies, crs);
    var back := ReadBack(bodies, crs);
    forall i | 0 <= i < |bodies| ensures back[i] == bodies[i] <==> (EndsInCr(bodies[i]) ==> crs[i]) {}
    if forall i | 0 <= i < |bodies| :: EndsInCr(bodies[i]) ==> crs[i] { assert back == bodies; }
  }

  // ---- A newline-delimited stream is never taken for a framed one ----------------------

  predicate AllIsBlank(s: string) {
    forall i | 0 <= i < |s| :: IsBlank(s[i])
  }

  lemma {:induction false} BlanksInFront(pre: string, s: string)
    requires AllIsBlank(pre)
    ensures Blanks(pre + s) == |pre| + Blanks(s)
  {
    if pre == [] {
      assert pre + s == s;
    } else {
      assert (pre + s)[1..] == pre[1..] + s;
      BlanksInFront(pre[1..], s);
    }
  }

  lemma FramedBehindBlanks(pre: string, s: string)
    requires AllIsBlank(pre) && ModeOf(s).Framed?
    ensures ModeOf(pre + s).Framed?
  {
    BlanksInFront(pre, s);
    var i := Blanks(s);
    assert (pre + s)[|pre| + i..|pre| + i + |PREFIX|] == s[i..i + |PREFIX|];
  }

  lemma FramedLonger(s: string, more: string)
    requires ModeOf(s).Framed?
    ensures ModeOf(s + more).Framed?
  {
    BlanksOfPrefix(s, s + more);
    SameWithin(s, s + more, Blanks(s));
  }

  /** While the mode is open only blanks have been taken out. */
  ghost predicate OpenInv(t: Trace) {
    && (t.r.framed ==> t.r.detected && ModeOf(t.fed).Framed?)
    && (!t.r.detected ==> exists pre :: t.fed == pre + t.r.buf && AllIsBlank(pre))
  }

  lemma DetectKeepsOpen(t: Trace)
    requires OpenInv(t)
    ensures OpenInv(t.(r := Detect(t.r)))
  {
    if !t.r.detected && Detect(t.r).framed {
      var pre :| t.fed == pre + t.r.buf && AllIsBlank(pre);
      FramedBehindBlanks(pre, t.r.buf);
    }
  }

  lemma DeliverKeepsOpen(t: Trace, results: seq<Read>)
    requires OpenInv(t)
    ensures OpenInv(Step(t, Deliver(results)))
  {
    FillExtends(t.r, results);
    var t' := Step(t, Deliver(results));
    var more := t'.r.buf[|t.r.buf|..];
    if t.r.framed { FramedLonger(t.fed, more); }
    if !t.r.detected {
      var pre :| t.fed == pre + t.r.buf && AllIsBlank(pre);
      Assoc(pre, t.r.buf, more);
      assert t'.r.buf == t.r.buf + more && t'.fed == pre + t'.r.buf;
    }
  }

  lemma TakeKeepsOpen(t: Trace)
    requires OpenInv(t)
    ensures OpenInv(Step(t, Take))
  {
    DetectKeepsOpen(t);
    var d := t.(r := Detect(t.r));
    if !d.r.detected {
      var pre :| t.fed == pre + t.r.buf && AllIsBlank(pre);
      var rest := Step(t, Take).r.buf;
      BlankTaken(t.r);
      var taken := t.r.buf[..|t.r.buf| - |rest|];
      Assoc(pre, taken, rest);
      assert AllIsBlank(pre + taken) && t.fed == (pre + taken) + rest;
    }
  }

  /** An undecided buffer is blank, and what is taken from it is a front part. */
  lemma BlankTaken(r: Reader)
    requires !Detect(r).detected && !r.framed
    ensures AllIsBlank(r.buf) && GetLine(r).0.detected == r.detected && GetLine(r).0.framed == r.framed
    ensures |GetLine(r).0.buf| <= |r.buf|
    ensures r.buf == r.buf[..|r.buf| - |GetLine(r).0.buf|] + GetLine(r).0.buf
  {
    assert Blanks(r.buf) == |r.buf|;
    assert GetLine(r) == GetNewline(r);
    FrontTaken(r);
  }

  lemma FrontTaken(r: Reader)
    ensures var r' := GetNewline(r).0;
            && r'.detected == r.detected && r'.framed == r.framed
            && |r'.buf| <= |r.buf| && r.buf == r.buf[..|r.buf| - |r'.buf|] + r'.buf
  {
    FirstNewline(r.buf, r.scanned);
  }

  lemma {:induction false} RunsKeepOpen(ops: seq<Op>)
    ensures OpenInv(Play(ops))
  {
    if ops == [] {
      assert [] + [] == Start.r.buf && AllIsBlank([]);
    } else {
      var t, op := Play(ops[..|ops| - 1]), ops[|ops| - 1];
      RunsKeepOpen(ops[..|ops| - 1]);
      match op
      case Deliver(results) => DeliverKeepsOpen(t, results);
      case Ask => AskKeepsOpen(t);
      case Take => TakeKeepsOpen(t);
    }
  }

  lemma AskKeepsOpen(t: Trace)
    requires OpenInv(t)
    ensures OpenInv(Step(t, Ask))
  {
    DetectKeepsOpen(t);
    var r, d := HasLine(t.r).0, Detect(t.r);
    assert r.buf == d.buf && r.detected == d.detected && r.framed == d.framed;
    if !r.detected {
      var pre :| t.fed == pre + d.buf && AllIsBlank(pre);
    }
  }

  /** Newline-delimited transport undoes newline-delimited writing, whatever line ends
      are used: on a stream that does not begin like a frame, every interleaving of
      fill, has_line and get_line takes the bodies in order, all of them exactly when
      has_line is false. */
  lemma NewlineRoundTrip(ops: seq<Op>, bodies: seq<string>, crs: seq<bool>)
    requires |bodies| == |crs| && forall i | 0 <= i < |bodies| :: HasNoLf(bodies[i])
    requires forall i | 0 <= i < |bodies| :: EndsInCr(bodies[i]) ==> crs[i]
    requires Play(ops).fed == Written(bodies, crs) && !ModeOf(Written(bodies, crs)).Framed?
    ensures Play(ops).taken <= bodies
    ensures !HasLine(Play(ops).r).1 <==> Play(ops).taken == bodies
  {
    RunsKeepOpen(ops);
    AskKeepsOpen(Play(ops));
    LinesOfWritten(bodies, crs);
    NewlineModeSplitsTheInput(ops);
  }
}
