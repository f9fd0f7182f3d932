/** The raw log of a terminal session: a bounded ring addressed by absolute
    cursors, and the delta reads on top of it. */
module TerminalLog {
  import opened Requests

  const SLACK_MIN: nat := 64 * 1024

  /** Retained bytes, the absolute position of the first of them, the number of
      bytes dropped, and where the next read without a cursor starts. */
  datatype Log = Log(bytes: string, base: nat, dropped: nat, readCursor: nat)

  datatype Slice = Slice(data: string, begin: nat, end: nat, truncated: bool)

  const Empty := Log([], 0, 0, 0)

  function Slack(limit: nat): nat {
    if limit / 8 > SLACK_MIN then limit / 8 else SLACK_MIN
  }

  function Append(l: Log, limit: nat, data: string): Log {
    var bytes := l.bytes + data;
    if limit == 0 || |bytes| <= limit + Slack(limit) then l.(bytes := bytes)
    else var drop := |bytes| - limit;
         l.(bytes := bytes[drop..], base := l.base + drop, dropped := l.dropped + drop)
  }

  function SliceFrom(l: Log, cursor: Option<nat>): Slice {
    var end := l.base + |l.bytes|;
    var wanted := if cursor.Some? then cursor.value else l.readCursor;
    var begin := if wanted < l.base then l.base else if wanted > end then end else wanted;
    Slice(l.bytes[begin - l.base..], begin, end, wanted < l.base)
  }

  function Advance(l: Log, s: Slice): Log {
    if s.end > l.readCursor then l.(readCursor := s.end) else l
  }

  /** The log holds exactly the history from `base` on; nothing is dropped before
      the limit is exceeded, and never more than the excess over it. */
  ghost predicate Refines(l: Log, limit: nat, history: string) {
    && l.base == l.dropped <= |history|
    && l.bytes == history[l.base..]
    && l.readCursor <= |history|
    && (limit == 0 ==> l.base == 0)
    && (limit > 0 ==> |l.bytes| <= limit + Slack(limit))
    && (limit > 0 && l.base > 0 ==> |l.bytes| >= limit)
  }

  lemma AppendRefines(l: Log, limit: nat, history: string, data: string)
    requires Refines(l, limit, history)
    ensures Refines(Append(l, limit, data), limit, history + data)
  {
    var l' := Append(l, limit, data);
    assert l.bytes + data == (history + data)[l.base..];
    if l' != l.(bytes := l.bytes + data) {
      var drop := |l.bytes| + |data| - limit;
      assert (history + data)[l.base..][drop..] == (history + data)[l.base + drop..];
    }
  }

  /** A read returns the history between its two cursors and says so when bytes
      before the first one are gone. */
  lemma SliceIsHistory(l: Log, limit: nat, history: string, cursor: Option<nat>)
    requires Refines(l, limit, history)
    ensures var s := SliceFrom(l, cursor);
            var wanted := if cursor.Some? then cursor.value else l.readCursor;
            && s.end == |history| && s.begin <= s.end && s.data == history[s.begin..s.end]
            && (s.truncated <==> wanted < l.dropped)
            && (s.truncated ==> s.begin == l.dropped)
            && (!s.truncated && wanted <= s.end ==> s.begin == wanted)
  {
    var s := SliceFrom(l, cursor);
    assert history[l.base..][s.begin - l.base..] == history[s.begin..];
  }

  // ---- Whole runs -----------------------------------------------------------------

  datatype Op = Output(data: string) | Poll(cursor: Option<nat>)

  datatype Trace = Trace(log: Log, history: string, slices: seq<Slice>)

  function Step(t: Trace, limit: nat, op: Op): Trace {
    match op
    case Output(data) => t.(log := Append(t.log, limit, data), history := t.history + data)
    case Poll(cursor) =>
      var s := SliceFrom(t.log, cursor);
      t.(log := Advance(t.log, s), slices := t.slices + [s])
  }

  function Play(limit: nat, ops: seq<Op>): Trace {
    if ops == [] then Trace(Empty, [], []) else Step(Play(limit, ops[..|ops| - 1]), limit, ops[|ops| - 1])
  }

  lemma {:induction false} RunRefines(limit: nat, ops: seq<Op>)
    ensures Refines(Play(limit, ops).log, limit, Play(limit, ops).history)
  {
    if ops != [] {
      var t := Play(limit, ops[..|ops| - 1]);
      RunRefines(limit, ops[..|ops| - 1]);
      match ops[|ops| - 1]
      case Output(data) => AppendRefines(t.log, limit, t.history, data);
      case Poll(_) =>
    }
  }

  /** In every run: what is retained is the history from `base`; `dropped` counts
      what came before; and the retained size stays within its bounds. */
  lemma {:induction false} RetainedIsRecentHistory(limit: nat, ops: seq<Op>)
    ensures var t := Play(limit, ops);
            && t.log.dropped == t.log.base == |t.history| - |t.log.bytes|
            && t.log.bytes == t.history[t.log.base..]
            && (limit == 0 ==> t.log.bytes == t.history)
            && (limit > 0 ==> |t.log.bytes| <= limit + Slack(limit))
            && (limit > 0 ==> |t.log.bytes| >= if |t.history| < limit then |t.history| else limit)
  {
    RunRefines(limit, ops);
  }

  /** The slack is an eighth of the limit, and 64 KiB at least. */
  lemma SlackIsAnEighth(limit: nat)
    ensures Slack(limit) >= 65536 && 8 * (Slack(limit) + 1) > limit
    ensures Slack(limit) == 65536 || 8 * Slack(limit) <= limit
  {
  }

  /** How often the front was dropped. */
  function Trims(limit: nat, ops: seq<Op>): nat {
    if ops == [] then 0
    else
      var front := ops[..|ops| - 1];
      Trims(limit, front) + if Play(limit, ops).log.dropped > Play(limit, front).log.dropped then 1 else 0
  }

  /** The front is dropped only when the log outgrows the limit by more than the slack,
      and then down to the limit: whatever arrives, the number of times it is moved is
      less than the number of slacks in the output. */
  lemma TrimsAreRare(limit: nat, ops: seq<Op>)
    ensures Trims(limit, ops) * (Slack(limit) + 1) <= Play(limit, ops).log.dropped
  {
    EachTrimDrops(limit, ops, Slack(limit) + 1);
  }

  predicate Times(n: nat, w: nat, total: nat) {
    n * w <= total
  }

  lemma {:induction false} EachTrimDrops(limit: nat, ops: seq<Op>, w: nat)
    requires w == Slack(limit) + 1
    ensures Times(Trims(limit, ops), w, Play(limit, ops).log.dropped)
  {
    if ops != [] {
      var front, op := ops[..|ops| - 1], ops[|ops| - 1];
      EachTrimDrops(limit, front, w);
      DropsToTheLimit(Play(limit, front), limit, op);
      OneMoreTrim(Trims(limit, front), w, Play(limit, front).log.dropped, Play(limit, ops).log.dropped);
    }
  }

  lemma OneMoreTrim(n: nat, w: nat, before: nat, after: nat)
    requires Times(n, w, before)
    ensures before + w <= after ==> Times(n + 1, w, after)
  {
  }

  lemma DropsToTheLimit(t: Trace, limit: nat, op: Op)
    ensures var l, l' := t.log, Step(t, limit, op).log;
            && (l'.dropped == l.dropped || l'.dropped > l.dropped + Slack(limit))
            && (l'.dropped != l.dropped ==> |l'.bytes| == limit)
            && (l'.dropped != l.dropped <==>
                  op.Output? && limit > 0 && |l.bytes| + |op.data| > limit + Slack(limit))
  {
  }

  /** Where the slice before number `i` ended. */
  function EndBefore(slices: seq<Slice>, i: nat): nat
    requires i <= |slices|
  {
    if i == 0 then 0 else slices[i - 1].end
  }

  /** Slices that cover the history up to the end of the last one: each begins
      where the previous one ended, or later and then says `truncated`. */
  ghost predicate Covers(slices: seq<Slice>, history: string) {
    forall i | 0 <= i < |slices| :: CoversNext(slices, history, i)
  }

  ghost predicate CoversNext(slices: seq<Slice>, history: string, i: nat)
    requires i < |slices|
  {
    var s, before := slices[i], EndBefore(slices, i);
    && before <= s.begin <= s.end <= |history|
    && s.data == history[s.begin..s.end]
    && (s.truncated <==> before < s.begin)
  }

  lemma CoversNextLater(slices: seq<Slice>, history: string, more: string, i: nat)
    requires i < |slices| && CoversNext(slices, history, i)
    ensures CoversNext(slices, history + more, i)
  {
    var s := slices[i];
    assert history[s.begin..s.end] == (history + more)[s.begin..s.end];
  }

  /** The cursors of the reads of a run, in order. */
  function Asked(ops: seq<Op>): seq<Option<nat>> {
    if ops == [] then []
    else Asked(ops[..|ops| - 1]) + if ops[|ops| - 1].Poll? then [ops[|ops| - 1].cursor] else []
  }

  lemma {:induction false} OneSliceARead(limit: nat, ops: seq<Op>)
    ensures |Asked(ops)| == |Play(limit, ops).slices|
    ensures var t := Play(limit, ops); t.log.readCursor == EndBefore(t.slices, |t.slices|)
  {
    if ops != [] {
      OneSliceARead(limit, ops[..|ops| - 1]);
      RunRefines(limit, ops[..|ops| - 1]);
    }
  }

  /** In every run, whatever reads with a cursor it also holds: a read without one
      begins where the read before it ended, or later exactly when it is flagged. */
  lemma {:induction false} CursorlessReadsContinue(limit: nat, ops: seq<Op>)
    ensures |Asked(ops)| == |Play(limit, ops).slices|
    ensures var t := Play(limit, ops);
            forall i | 0 <= i < |t.slices| && Asked(ops)[i] == None :: CoversNext(t.slices, t.history, i)
  {
    OneSliceARead(limit, ops);
    if ops != [] {
      var front, op := ops[..|ops| - 1], ops[|ops| - 1];
      var t := Play(limit, front);
      CursorlessReadsContinue(limit, front);
      RunRefines(limit, front);
      OneSliceARead(limit, front);
      match op
      case Output(data) =>
        forall i | 0 <= i < |t.slices| && Asked(ops)[i] == None ensures CoversNext(t.slices, t.history + data, i) {
          CoversNextLater(t.slices, t.history, data, i);
        }
      case Poll(cursor) =>
        SliceIsHistory(t.log, limit, t.history, cursor);
        var all := t.slices + [SliceFrom(t.log, cursor)];
        forall i | 0 <= i < |all| && Asked(ops)[i] == None ensures CoversNext(all, t.history, i) {
          if i < |t.slices| { assert CoversNext(t.slices, t.history, i); }
        }
    }
  }

  /** Successive reads without a cursor deliver every byte once and in order,
      except for gaps, and a gap is flagged exactly when there is one. */
  lemma PollsCoverHistory(limit: nat, ops: seq<Op>)
    requires forall op | op in ops :: op.Poll? ==> op.cursor == None
    ensures var t := Play(limit, ops);
            Covers(t.slices, t.history) && t.log.readCursor == EndBefore(t.slices, |t.slices|)
  {
    CursorlessReadsContinue(limit, ops);
    OneSliceARead(limit, ops);
    NoneAsked(ops);
  }

  lemma {:induction false} NoneAsked(ops: seq<Op>)
    requires forall op | op in ops :: op.Poll? ==> op.cursor == None
    ensures forall i | 0 <= i < |Asked(ops)| :: Asked(ops)[i] == None
  {
    if ops != [] {
      assert ops[|ops| - 1] in ops;
      NoneAsked(ops[..|ops| - 1]);
    }
  }

  // ---- Reads that skip bytes in silence ---------------------------------------------

  /** The read moves the read cursor past bytes that it neither returns nor flags. */
  predicate SkipsSilently(l: Log, cursor: Option<nat>) {
    var s := SliceFrom(l, cursor);
    !s.truncated && l.readCursor < s.begin
  }

  /** That happens exactly to a read whose cursor lies beyond the read cursor, while
      there is unread output and the cursor is not older than what is kept. */
  lemma SkipsSilentlyIff(l: Log, limit: nat, history: string, cursor: Option<nat>)
    requires Refines(l, limit, history)
    ensures SkipsSilently(l, cursor) <==>
              cursor.Some? && l.base <= cursor.value && l.readCursor < cursor.value && l.readCursor < |history|
  {
  }

  /** Some read returned the byte at `k`, or a flagged read announced that bytes
      before its begin are gone. */
  ghost predicate AccountedFor(slices: seq<Slice>, k: nat) {
    exists i | 0 <= i < |slices| ::
      slices[i].begin <= k < slices[i].end || (slices[i].truncated && k < slices[i].begin)
  }

  ghost predicate NothingMissed(t: Trace) {
    forall k | 0 <= k < t.log.readCursor :: AccountedFor(t.slices, k)
  }

  predicate OpSkips(t: Trace, op: Op) {
    op.Poll? && SkipsSilently(t.log, op.cursor)
  }

  /** No read reaches beyond the read cursor. */
  ghost predicate WithinCursor(t: Trace) {
    && t.log.readCursor <= |t.history|
    && forall s | s in t.slices :: s.begin <= s.end <= t.log.readCursor
  }

  lemma {:induction false} ReadsStayWithinCursor(limit: nat, ops: seq<Op>)
    ensures WithinCursor(Play(limit, ops))
  {
    if ops != [] {
      ReadsStayWithinCursor(limit, ops[..|ops| - 1]);
      RunRefines(limit, ops[..|ops| - 1]);
    }
  }

  lemma StepMissesNothing(t: Trace, limit: nat, op: Op)
    requires WithinCursor(t) && NothingMissed(t) && Refines(t.log, limit, t.history)
    ensures NothingMissed(Step(t, limit, op)) <==> !OpSkips(t, op)
  {
    match op
    case Output(_) =>
    case Poll(cursor) =>
      var s := SliceFrom(t.log, cursor);
      var all := t.slices + [s];
      assert all[|t.slices|] == s;
      if OpSkips(t, op) {
        forall i | 0 <= i < |all|
          ensures !(all[i].begin <= t.log.readCursor < all[i].end)
          ensures !(all[i].truncated && t.log.readCursor < all[i].begin)
        {
          if i < |t.slices| { assert t.slices[i] in t.slices; }
        }
        assert !AccountedFor(all, t.log.readCursor);
      } else {
        forall k | 0 <= k < s.end ensures AccountedFor(all, k) {
          if k < t.log.readCursor {
            assert AccountedFor(t.slices, k);
            var i :| 0 <= i < |t.slices|
              && (t.slices[i].begin <= k < t.slices[i].end || (t.slices[i].truncated && k < t.slices[i].begin));
            assert all[i] == t.slices[i];
          }
        }
      }
  }

  ghost predicate FineAfter(limit: nat, ops: seq<Op>, n: nat)
    requires n <= |ops|
  {
    NothingMissed(Play(limit, ops[..n]))
  }

  predicate SkipsAt(limit: nat, ops: seq<Op>, n: nat)
    requires n < |ops|
  {
    OpSkips(Play(limit, ops[..n]), ops[n])
  }

  ghost predicate NeverMissed(limit: nat, ops: seq<Op>) {
    forall n | 0 <= n <= |ops| :: FineAfter(limit, ops, n)
  }

  ghost predicate NeverSkips(limit: nat, ops: seq<Op>) {
    forall n | 0 <= n < |ops| :: !SkipsAt(limit, ops, n)
  }

  lemma FrontIsSame(limit: nat, front: seq<Op>, op: Op, n: nat)
    requires n <= |front|
    ensures FineAfter(limit, front + [op], n) == FineAfter(limit, front, n)
    ensures n < |front| ==> SkipsAt(limit, front + [op], n) == SkipsAt(limit, front, n)
  {
    assert (front + [op])[..n] == front[..n];
  }

  lemma LastIs(limit: nat, front: seq<Op>, op: Op)
    ensures FineAfter(limit, front + [op], |front| + 1) == NothingMissed(Play(limit, front + [op]))
    ensures SkipsAt(limit, front + [op], |front|) == OpSkips(Play(limit, front), op)
  {
    assert (front + [op])[..|front|] == front && (front + [op])[..|front| + 1] == front + [op];
  }

  lemma NeverStep(limit: nat, front: seq<Op>, op: Op)
    ensures NeverMissed(limit, front + [op]) <==>
              NeverMissed(limit, front) && NothingMissed(Play(limit, front + [op]))
    ensures NeverSkips(limit, front + [op]) <==> NeverSkips(limit, front) && !OpSkips(Play(limit, front), op)
  {
    LastIs(limit, front, op);
    forall n | 0 <= n <= |front|
      ensures FineAfter(limit, front + [op], n) == FineAfter(limit, front, n)
      ensures n < |front| ==> SkipsAt(limit, front + [op], n) == SkipsAt(limit, front, n)
    {
      FrontIsSame(limit, front, op, n);
    }
  }

  lemma FineNow(limit: nat, ops: seq<Op>)
    requires NeverMissed(limit, ops)
    ensures NothingMissed(Play(limit, ops))
  {
    assert FineAfter(limit, ops, |ops|) && ops[..|ops|] == ops;
  }

  /** For every run: at each moment all bytes before the read cursor have been
      returned or announced as gone, if and only if no read of the run skips. */
  lemma {:induction false} NothingMissedIff(limit: nat, ops: seq<Op>)
    ensures NeverMissed(limit, ops) <==> NeverSkips(limit, ops)
  {
    if ops == [] {
      assert ops[..0] == [] && FineAfter(limit, ops, 0);
    } else {
      var front, op := ops[..|ops| - 1], ops[|ops| - 1];
      assert ops == front + [op];
      NothingMissedIff(limit, front);
      NeverStep(limit, front, op);
      ReadsStayWithinCursor(limit, front);
      RunRefines(limit, front);
      if NeverMissed(limit, front) {
        FineNow(limit, front);
        StepMissesNothing(Play(limit, front), limit, op);
      }
    }
  }

  /** A client reads ahead of the output it has not seen yet, and then goes on
      without a cursor: two bytes are never shown and never flagged. */
  lemma ReadAheadSkips()
    ensures var t := Play(0, [Output("ab"), Poll(Some(2)), Poll(None)]);
            && t.slices == [Slice([], 2, 2, false), Slice([], 2, 2, false)]
            && t.history == "ab" && !NothingMissed(t)
  {
    var a, b, c := Output("ab"), Poll(Some(2)), Poll(None);
    var s := Slice([], 2, 2, false);
    PlayOneMore(0, [], a);
    PlayOneMore(0, [a], b);
    PlayOneMore(0, [a, b], c);
    assert [] + "ab" == "ab" && "ab"[2..] == [];
    var t := Trace(Log("ab", 0, 0, 2), "ab", [s, s]);
    assert !AccountedFor(t.slices, 0);
  }

  lemma PlayOneMore(limit: nat, front: seq<Op>, op: Op)
    ensures Play(limit, front + [op]) == Step(Play(limit, front), limit, op)
  {
    assert (front + [op])[..|front|] == front;
  }

  function DataOf(slices: seq<Slice>): string {
    if slices == [] then [] else DataOf(slices[..|slices| - 1]) + slices[|slices| - 1].data
  }

  /** Without a flagged gap, joining what the polls returned gives the history. */
  lemma {:induction false} UnflaggedPollsRebuildHistory(slices: seq<Slice>, history: string)
    requires Covers(slices, history) && forall s | s in slices :: !s.truncated
    ensures EndBefore(slices, |slices|) <= |history|
    ensures DataOf(slices) == history[..EndBefore(slices, |slices|)]
  {
    if slices != [] {
      var n := |slices| - 1;
      var front := slices[..n];
      assert slices[n] in slices && CoversNext(slices, history, n);
      forall i | 0 <= i < |front| ensures CoversNext(front, history, i) {
        assert CoversNext(slices, history, i);
      }
      UnflaggedPollsRebuildHistory(front, history);
      assert EndBefore(front, n) == EndBefore(slices, n);
      assert history[..slices[n].begin] + slices[n].data == history[..slices[n].end];
    }
  }

  // ---- The object -------------------------------------------------------------------

  class Session {
    const limit: nat
    var log: string
    var logBase: nat
    var dropped: nat
    var readCursor: nat

    ghost function Now(): Log
      reads this
    {
      Log(log, logBase, dropped, readCursor)
    }

    constructor (limit: nat)
      ensures Now() == Empty && this.limit == limit
    {
      this.limit := limit;
      log, logBase, dropped, readCursor := [], 0, 0, 0;
    }

    method LogAppend(data: string)
      modifies this
      ensures Now() == Append(old(Now()), limit, data)
    {
      log := log + data;
      if limit == 0 { return; }
      var slack := if limit / 8 > SLACK_MIN then limit / 8 else SLACK_MIN;
      if |log| <= limit + slack { return; }
      var drop := |log| - limit;
      log := log[drop..];
      logBase := logBase + drop;
      dropped := dropped + drop;
    }

    method LogSlice(cursor: Option<nat>) returns (s: Slice)
      ensures s == SliceFrom(Now(), cursor)
    {
      var end := logBase + |log|;
      var begin := if cursor.Some? then cursor.value else readCursor;
      var truncated := false;
      if begin < logBase {
        truncated := true;
        begin := logBase;
      }
      if begin > end { begin := end; }
      s := Slice(log[begin - logBase..], begin, end, truncated);
    }

    /** A read as the tools perform it: the delta, then the cursor moves on. */
    method ReadDelta(cursor: Option<nat>) returns (s: Slice)
      modifies this
      ensures s == SliceFrom(old(Now()), cursor)
      ensures Now() == Advance(old(Now()), s)
    {
      s := LogSlice(cursor);
      if s.end > readCursor { readCursor := s.end; }
    }
  }
}
