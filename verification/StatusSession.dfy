/** Probes armed and answered over the life of a terminal session: whose status a
    completed probe carries. */
module StatusSession {
  import opened Requests
  import opened StatusProbe

  // ---- The answers in a stream -----------------------------------------------------

  /** The statuses of the markers that begin at `a` or later and before `n`. */
  ghost function Codes(s: string, a: nat, n: nat): seq<nat> {
    if n <= a then []
    else Codes(s, a, n - 1) + if IsMarker(s, n - 1) then [MarkerCode(s, n - 1)] else []
  }

  ghost function Statuses(s: string): seq<nat> {
    Codes(s, 0, |s|)
  }

  /** Where the window of the next scan begins. */
  function WindowStart(h: string): nat {
    |h| - |LastBytes(h)|
  }

  /** The answers that a burst `c` after the output `h` completes and that are not
      cut inside their digits: the prefix ends no earlier than the burst begins. */
  ghost function Visible(h: string, c: string): seq<nat> {
    Codes(h + c, WindowStart(h), |h + c|)
  }

  lemma VisibleMeansUncut(h: string, c: string, i: nat)
    requires IsMarker(h + c, i)
    ensures WindowStart(h) <= i <==> |h| <= i + |PREFIX|
  {
  }

  lemma {:induction false} NoCodes(s: string, a: nat, b: nat)
    requires forall i: nat | a <= i < b :: !IsMarker(s, i)
    ensures Codes(s, a, b) == []
  {
    if a < b { NoCodes(s, a, b - 1); }
  }

  lemma {:induction false} CodesSplit(s: string, a: nat, b: nat, c: nat)
    requires a <= b <= c
    ensures Codes(s, a, c) == Codes(s, a, b) + Codes(s, b, c)
  {
    if b < c { CodesSplit(s, a, b, c - 1); }
  }

  lemma {:induction false} SameCodes(h: string, c: string, n: nat)
    requires forall i: nat | i < n && IsMarker(h + c, i) :: IsMarker(h, i)
    ensures Codes(h + c, 0, n) == Codes(h, 0, n)
  {
    if n > 0 {
      SameCodes(h, c, n - 1);
      MarkerOfPrefix(h, c, n - 1);
    }
  }

  lemma OneCode(s: string, a: nat, q: nat)
    requires a <= q && IsMarker(s, q) && forall i: nat | a <= i < q :: !IsMarker(s, i)
    ensures Codes(s, a, q + 1) == [MarkerCode(s, q)]
  {
    NoCodes(s, a, q);
  }

  /** A pending probe is completed by a burst exactly when the burst has a visible
      answer, and then takes the first. */
  lemma ChunkAnswers(p: Probe, h: string, c: string)
    requires p.pending && p.tail == LastBytes(h)
    ensures !Scan(p, c).pending <==> Visible(h, c) != []
    ensures !Scan(p, c).pending ==> Scan(p, c).doneSeq == p.pendingSeq && Scan(p, c).code == Visible(h, c)[0]
  {
    WindowIsSuffix(h, c);
    AnswersInWindow(h + c, WindowStart(h));
  }

  lemma AnswersInWindow(s: string, k: nat)
    requires k <= |s|
    ensures FirstMarker(s[k..], 0).Some? <==> Codes(s, k, |s|) != []
    ensures FirstMarker(s[k..], 0).Some? ==>
              MarkerCode(s[k..], FirstMarker(s[k..], 0).value) == Codes(s, k, |s|)[0]
  {
    var hit := FirstMarker(s[k..], 0);
    if hit.Some? {
      HitIsFirst(s, k, hit.value);
    } else {
      NoneBefore(s, k, |s| - k);
      NoCodes(s, k, |s|);
    }
  }

  lemma HitIsFirst(s: string, k: nat, q: nat)
    requires k <= |s| && IsMarker(s[k..], q) && forall j: nat | j < q :: !IsMarker(s[k..], j)
    ensures Codes(s, k, |s|) != [] && Codes(s, k, |s|)[0] == MarkerCode(s[k..], q)
  {
    NoneBefore(s, k, q);
    MarkerOfSuffix(s, k, q);
    FirstCode(s, k, k + q);
  }

  lemma FirstCode(s: string, a: nat, q: nat)
    requires a <= q < |s| && IsMarker(s, q) && forall i: nat | a <= i < q :: !IsMarker(s, i)
    ensures Codes(s, a, |s|) != [] && Codes(s, a, |s|)[0] == MarkerCode(s, q)
  {
    OneCode(s, a, q);
    CodesSplit(s, a, q + 1, |s|);
  }

  lemma NoneBefore(s: string, k: nat, q: nat)
    requires k <= |s| && forall j: nat | j < q :: !IsMarker(s[k..], j)
    ensures forall i: nat | k <= i < k + q :: !IsMarker(s, i)
  {
    forall i: nat | k <= i < k + q ensures !IsMarker(s, i) { MarkerOfSuffix(s, k, i - k); }
  }

  /** The next burst begins inside the digits of no marker. */
  ghost predicate Uncut(h: string, c: string) {
    forall i: nat | IsMarker(h + c, i) :: |h| <= i + |PREFIX| || EndOf(h + c, i + |PREFIX|) < |h|
  }

  /** Then all the answers it completes are visible. */
  lemma UncutShowsAll(h: string, c: string)
    requires Uncut(h, c)
    ensures Statuses(h + c) == Statuses(h) + Visible(h, c)
  {
    var k := WindowStart(h);
    forall i: nat | i < k && IsMarker(h + c, i) ensures IsMarker(h, i) { MarkerOfPrefix(h, c, i); }
    SameCodes(h, c, k);
    CodesSplit(h + c, 0, k, |h + c|);
    NoneAtTheEnd(h);
    CodesSplit(h, 0, k, |h|);
  }

  lemma NoneAtTheEnd(h: string)
    ensures Codes(h, WindowStart(h), |h|) == []
  {
    forall i: nat | WindowStart(h) <= i < |h| ensures !IsMarker(h, i) { NoRoomForCode(h, i); }
    NoCodes(h, WindowStart(h), |h|);
  }

  lemma NoRoomForCode(h: string, i: nat)
    requires |h| <= i + |PREFIX|
    ensures !IsMarker(h, i)
  {
  }

  // ---- A session ------------------------------------------------------------------------

  datatype Event = Arm | Burst(chunk: string)

  /** `history` is the output, `seen` its visible answers; no step looks at either. */
  datatype Session = Session(probe: Probe, history: string, seen: seq<nat>)

  const Opened: Session := Session(Probe([], false, 0, 0, 0, 0), [], [])

  ghost function Next(s: Session, e: Event): Session {
    match e
    case Arm => s.(probe := s.probe.(pendingSeq := s.probe.pendingSeq + 1, pending := true))
    case Burst(c) => Session(Scan(s.probe, c), s.history + c, s.seen + Visible(s.history, c))
  }

  ghost predicate IsRun(states: seq<Session>, events: seq<Event>) {
    && |states| == |events| + 1 && states[0] == Opened
    && forall i | 0 <= i < |events| :: states[i + 1] == Next(states[i], events[i])
  }

  lemma {:induction false} RunKeepsTail(states: seq<Session>, events: seq<Event>, i: nat)
    requires IsRun(states, events) && i < |states|
    ensures states[i].probe.tail == LastBytes(states[i].history)
  {
    if i > 0 {
      RunKeepsTail(states, events, i - 1);
      StepKeepsTail(states[i - 1], events[i - 1]);
    }
  }

  lemma StepKeepsTail(s: Session, e: Event)
    requires s.probe.tail == LastBytes(s.history)
    ensures Next(s, e).probe.tail == LastBytes(Next(s, e).history)
  {
    if e.Burst? { WindowIsSuffix(s.history, e.chunk); }
  }

  /** Step `a` armed the newest probe of step `i`. */
  ghost predicate ArmedAt(events: seq<Event>, a: nat, i: nat) {
    a < i <= |events| && events[a].Arm? && forall j | a < j < i :: events[j].Burst?
  }

  /** In every run, however the output is cut: a probe stays pending exactly as long
      as no visible answer has come since it was armed. */
  lemma {:induction false} PendingUntilVisible(states: seq<Session>, events: seq<Event>, a: nat, i: nat)
    requires IsRun(states, events) && ArmedAt(events, a, i)
    ensures states[i].probe.pendingSeq == states[a].probe.pendingSeq + 1
    ensures states[a].seen <= states[i].seen
    ensures states[i].probe.pending <==> states[i].seen == states[a].seen
    decreases i
  {
    assert states[i] == Next(states[i - 1], events[i - 1]);
    if a < i - 1 {
      PendingUntilVisible(states, events, a, i - 1);
      RunKeepsTail(states, events, i - 1);
      BurstShows(states[i - 1], events[i - 1].chunk);
    }
  }

  lemma BurstShows(s: Session, c: string)
    requires s.probe.tail == LastBytes(s.history)
    ensures var s' := Next(s, Burst(c));
            && s'.probe.pendingSeq == s.probe.pendingSeq && s.seen <= s'.seen
            && (s.probe.pending ==> (s'.probe.pending <==> s'.seen == s.seen))
            && (!s.probe.pending ==> !s'.probe.pending)
  {
    if s.probe.pending { ChunkAnswers(s.probe, s.history, c); }
  }

  /** Probe n has just been completed. */
  ghost predicate Completes(states: seq<Session>, events: seq<Event>, i: nat, n: nat)
    requires IsRun(states, events) && i < |events|
  {
    events[i].Burst? && states[i].probe.pending && !states[i + 1].probe.pending && states[i + 1].probe.doneSeq == n
  }

  /** In every run a completed probe carries the first visible answer that came
      after it was armed. */
  lemma CompletedProbeCarries(states: seq<Session>, events: seq<Event>, a: nat, i: nat, n: nat)
    requires IsRun(states, events) && i < |events| && ArmedAt(events, a, i) && Completes(states, events, i, n)
    ensures n == states[a].probe.pendingSeq + 1
    ensures states[a].seen == states[i].seen < states[i + 1].seen
    ensures states[i + 1].probe.code == states[i + 1].seen[|states[a].seen|]
  {
    PendingUntilVisible(states, events, a, i);
    RunKeepsTail(states, events, i);
    assert states[i + 1] == Next(states[i], events[i]);
    ChunkAnswers(states[i].probe, states[i].history, events[i].chunk);
  }

  // ---- A shell that answers in order ------------------------------------------------------

  /** No burst cuts a marker, and the shell has answered no more probes than it was
      sent: it runs their lines one after the other, so that the n-th marker is the
      answer to the n-th probe. */
  ghost predicate OrderlyStep(s: Session, e: Event) {
    e.Burst? ==> Uncut(s.history, e.chunk) && |Statuses(s.history + e.chunk)| <= s.probe.pendingSeq
  }

  ghost predicate Orderly(states: seq<Session>, events: seq<Event>)
    requires IsRun(states, events)
  {
    forall i | 0 <= i < |events| :: OrderlyStep(states[i], events[i])
  }

  lemma {:induction false} OrderlySeesAll(states: seq<Session>, events: seq<Event>, i: nat)
    requires IsRun(states, events) && Orderly(states, events) && i < |states|
    ensures states[i].seen == Statuses(states[i].history) && |states[i].seen| <= states[i].probe.pendingSeq
  {
    if i > 0 {
      OrderlySeesAll(states, events, i - 1);
      assert OrderlyStep(states[i - 1], events[i - 1]) && states[i] == Next(states[i - 1], events[i - 1]);
      if events[i - 1].Burst? { UncutShowsAll(states[i - 1].history, events[i - 1].chunk); }
    }
  }

  /** A pending probe has not been answered. */
  lemma PendingIsUnanswered(states: seq<Session>, events: seq<Event>, i: nat)
    requires IsRun(states, events) && Orderly(states, events) && i < |states| && states[i].probe.pending
    ensures |states[i].seen| < states[i].probe.pendingSeq
  {
    var a := LastArm(states, events, i);
    PendingUntilVisible(states, events, a, i);
    OrderlySeesAll(states, events, a);
  }

  lemma {:induction false} LastArm(states: seq<Session>, events: seq<Event>, i: nat) returns (a: nat)
    requires IsRun(states, events) && i < |states| && states[i].probe.pending
    ensures ArmedAt(events, a, i)
  {
    assert states[i] == Next(states[i - 1], events[i - 1]);
    if events[i - 1].Burst? { a := LastArm(states, events, i - 1); } else { a := i - 1; }
  }

  /** Up to step `upto` every probe is armed when no earlier one is pending. */
  ghost predicate Patient(states: seq<Session>, events: seq<Event>, upto: nat)
    requires IsRun(states, events) && upto <= |events|
  {
    forall i | 0 <= i < upto && events[i].Arm? :: !states[i].probe.pending
  }

  /** A caller who waits for each status before sending the next command: nothing
      is outstanding unless a probe is pending, and then only its own answer. */
  lemma {:induction false} PatientCallerIsInStep(states: seq<Session>, events: seq<Event>, i: nat)
    requires IsRun(states, events) && Orderly(states, events) && i < |states| && Patient(states, events, i)
    ensures var s := states[i];
            |s.seen| + (if s.probe.pending then 1 else 0) == s.probe.pendingSeq
  {
    if i > 0 {
      PatientCallerIsInStep(states, events, i - 1);
      OrderlySeesAll(states, events, i);
      RunKeepsTail(states, events, i - 1);
      var s := states[i - 1];
      assert states[i] == Next(s, events[i - 1]);
      if events[i - 1].Burst? && s.probe.pending { ChunkAnswers(s.probe, s.history, events[i - 1].chunk); }
    }
  }

  /** Whose answer that is when the shell answers in order: the n-th, its own, if
      no probe up to then was armed while another was pending; an earlier one if
      another probe was pending when this one was armed. */
  lemma WhoseAnswer(states: seq<Session>, events: seq<Event>, a: nat, i: nat, n: nat)
    requires IsRun(states, events) && Orderly(states, events)
    requires i < |events| && ArmedAt(events, a, i) && Completes(states, events, i, n)
    ensures var k, all := |states[a].seen|, Statuses(states[i + 1].history);
            && k < n && k < |all| && states[i + 1].probe.code == all[k]
            && (Patient(states, events, a + 1) ==> k == n - 1)
            && (states[a].probe.pending ==> k < n - 1)
  {
    CompletedProbeCarries(states, events, a, i, n);
    OrderlySeesAll(states, events, a);
    OrderlySeesAll(states, events, i + 1);
    if states[a].probe.pending { PendingIsUnanswered(states, events, a); }
    if Patient(states, events, a + 1) { PatientCallerIsInStep(states, events, a); }
  }

  /** So a caller who never sends while a probe is pending gets every command's own
      status. */
  lemma PatientCallerGetsItsOwnStatus(states: seq<Session>, events: seq<Event>, i: nat, n: nat)
    requires IsRun(states, events) && Orderly(states, events) && Patient(states, events, |events|)
    requires i < |events| && Completes(states, events, i, n)
    ensures 1 <= n <= |Statuses(states[i + 1].history)|
    ensures states[i + 1].probe.code == Statuses(states[i + 1].history)[n - 1]
  {
    var a := LastArm(states, events, i);
    WhoseAnswer(states, events, a, i, n);
  }

  // ---- Two probes at once -----------------------------------------------------------------

  /** The marker of a one-digit status. */
  function Marker(d: char): string {
    PREFIX + [d, BEL]
  }

  lemma MarkerAt(w: string, at: nat, d: char)
    requires IsDigitChar(d) && at + |Marker(d)| <= |w| && w[at..at + |Marker(d)|] == Marker(d)
    ensures IsMarker(w, at) && MarkerCode(w, at) == (d - '0') as nat
  {
    var p, m := at + |PREFIX|, w[at..at + |Marker(d)|];
    assert w[at..p] == m[..|PREFIX|] == Marker(d)[..|PREFIX|] == PREFIX;
    assert w[p] == m[|PREFIX|] == d && w[p + 1] == m[|PREFIX| + 1] == BEL;
    assert CodeAt(w, p + 1, (d - '0') as nat, true) == Some((d - '0') as nat);
  }

  predicate IsDigitChar(d: char) { '0' <= d <= '9' }

  /** Nothing but the first byte of a marker begins one. */
  lemma NoneInside(w: string, at: nat, d: char, i: nat)
    requires IsDigitChar(d) && at + |Marker(d)| <= |w| && w[at..at + |Marker(d)|] == Marker(d)
    requires at < i < at + |Marker(d)|
    ensures !IsMarker(w, i)
  {
    assert w[i] == w[at..at + |Marker(d)|][i - at];
    if i - at < |PREFIX| { EscapeOnlyFirst(i - at); }
    if IsMarker(w, i) { PrefixBytes(w, i, 0); }
  }

  lemma OneAnswer()
    ensures Statuses(Marker('7')) == [7] && Statuses([]) == []
  {
    var w := Marker('7');
    assert w[0..|w|] == w;
    MarkerAt(w, 0, '7');
    OneCode(w, 0, 0);
    forall i: nat | 1 <= i < |w| ensures !IsMarker(w, i) { NoneInside(w, 0, '7', i); }
    NoCodes(w, 1, |w|);
    CodesSplit(w, 0, 1, |w|);
  }

  lemma TwoAnswers()
    ensures Statuses(Marker('7') + Marker('0')) == [7, 0]
    ensures Visible([], Marker('7')) == [7] && Visible(Marker('7'), Marker('0')) == [0]
  {
    WholeMarkersAreUncut();
    OneAnswer();
    assert [] + Marker('7') == Marker('7');
    UncutShowsAll([], Marker('7'));
    UncutShowsAll(Marker('7'), Marker('0'));
    SecondAnswer();
  }

  lemma SecondAnswer()
    ensures Visible(Marker('7'), Marker('0')) == [0]
  {
    var h, c := Marker('7'), Marker('0');
    var w, k := h + c, WindowStart(Marker('7'));
    assert w[0..|h|] == h && w[|h|..|h| + |c|] == c;
    MarkerAt(w, |h|, '0');
    forall i: nat | k <= i < |h| ensures !IsMarker(w, i) { NoneInside(w, 0, '7', i); }
    OneCode(w, k, |h|);
    forall i: nat | |h| + 1 <= i < |w| ensures !IsMarker(w, i) { NoneInside(w, |h|, '0', i); }
    NoCodes(w, |h| + 1, |w|);
    CodesSplit(w, k, |h| + 1, |w|);
  }

  lemma WholeMarkersAreUncut()
    ensures Uncut([], Marker('7')) && Uncut(Marker('7'), Marker('0'))
  {
    var h, c := Marker('7'), Marker('0');
    var w := h + c;
    assert [] + h == h && w[0..|h|] == h;
    MarkerAt(w, 0, '7');
    assert EndOf(w, |PREFIX| + 1) == |PREFIX| + 1 by { assert w[|PREFIX| + 1] == h[|PREFIX| + 1] == BEL; }
    assert w[|PREFIX|] == h[|PREFIX|] == '7';
    assert forall i: nat | 0 < i < |h| :: !IsMarker(w, i) by {
      forall i: nat | 0 < i < |h| ensures !IsMarker(w, i) { NoneInside(w, 0, '7', i); }
    }
  }

  // The session of the two commands below.
  ghost const TwoArmed := Next(Next(Opened, Arm), Arm)
  ghost const FirstShown := Next(TwoArmed, Burst(Marker('7')))
  ghost const BothShown := Next(FirstShown, Burst(Marker('0')))

  lemma FirstCompletesSecond()
    ensures TwoArmed.probe.pending && !FirstShown.probe.pending
    ensures FirstShown.probe.doneSeq == 2 && FirstShown.probe.code == 7
    ensures FirstShown.history == Marker('7') && FirstShown.probe.pendingSeq == 2
  {
    TwoAnswers();
    assert [] + Marker('7') == Marker('7');
    ChunkAnswers(TwoArmed.probe, [], Marker('7'));
  }

  lemma SecondIsIgnored()
    ensures BothShown.history == Marker('7') + Marker('0')
    ensures BothShown.probe.doneSeq == 2 && BothShown.probe.code == 7
  {
    FirstCompletesSecond();
  }

  lemma BothAreOrderly()
    ensures OrderlyStep(TwoArmed, Burst(Marker('7'))) && OrderlyStep(FirstShown, Burst(Marker('0')))
  {
    FirstCompletesSecond();
    WholeMarkersAreUncut();
    TwoAnswers();
    OneAnswer();
    assert [] + Marker('7') == Marker('7');
  }

  /** A second command is sent while the first still runs.  The first answer, 7,
      completes the second probe; its own answer, 0, is then ignored. */
  lemma SecondProbeTakesTheFirstStatus() returns (states: seq<Session>, events: seq<Event>)
    ensures IsRun(states, events) && Orderly(states, events) && |events| == 4 && Completes(states, events, 2, 2)
    ensures Statuses(states[4].history) == [7, 0] && states[4].probe.doneSeq == 2 && states[4].probe.code == 7
  {
    events := [Arm, Arm, Burst(Marker('7')), Burst(Marker('0'))];
    states := [Opened, Next(Opened, Arm), TwoArmed, FirstShown, BothShown];
    FirstCompletesSecond();
    SecondIsIgnored();
    BothAreOrderly();
    FourSteps(states, events);
    TwoAnswers();
  }

  lemma FourSteps(states: seq<Session>, events: seq<Event>)
    requires |states| == 5 && |events| == 4 && states[0] == Opened && events[0] == events[1] == Arm
    requires states[1] == Next(states[0], events[0]) && states[2] == Next(states[1], events[1])
    requires states[3] == Next(states[2], events[2]) && states[4] == Next(states[3], events[3])
    requires OrderlyStep(states[2], events[2]) && OrderlyStep(states[3], events[3])
    ensures IsRun(states, events) && Orderly(states, events)
  {
    forall i | 0 <= i < |events| ensures states[i + 1] == Next(states[i], events[i]) {
      assert i == 0 || i == 1 || i == 2 || i == 3;
    }
    forall i | 0 <= i < |events| ensures OrderlyStep(states[i], events[i]) {
      assert i == 0 || i == 1 || i == 2 || i == 3;
    }
  }
}
