/** The coordinator's loop as the object it is: fields updated line by line and
    descriptor by descriptor.  Every method is tied to the steps of
    EventLoopSpec, so the statements of EventLoopTheorems hold of its runs. */
module EventLoop {
  import opened Requests
  import opened WorkerChannel
  import opened WorkerPool
  import Spec = EventLoopSpec
  import opened EventLoopSpec
  import Runs = EventLoopRuns
  import Theorems = EventLoopTheorems

  /** The state after these events, or None if one of them is not possible. */
  ghost function Play(s: State, events: seq<Event>): Option<State> {
    if events == [] then Some(s)
    else var before := Play(s, events[..|events| - 1]);
         if before.Some? && Possible(before.value, events[|events| - 1])
         then Some(Next(before.value, events[|events| - 1]))
         else None
  }

  lemma PlayOne(s: State, events: seq<Event>, e: Event)
    requires Play(s, events).Some? && Possible(Play(s, events).value, e)
    ensures Play(s, events + [e]) == Some(Next(Play(s, events).value, e))
  {
    assert (events + [e])[..|events|] == events;
  }

  lemma {:induction false} PlayBoth(s: State, a: seq<Event>, b: seq<Event>)
    requires Play(s, a).Some? && Play(Play(s, a).value, b).Some?
    ensures Play(s, a + b) == Play(Play(s, a).value, b)
  {
    if b == [] {
      assert a + b == a;
    } else {
      PlayBoth(s, a, b[..|b| - 1]);
      assert (a + b)[..|a + b| - 1] == a + b[..|b| - 1];
    }
  }

  lemma {:induction false} PlayKeepsInv(s: State, events: seq<Event>)
    requires Inv(s) && Play(s, events).Some?
    ensures Inv(Play(s, events).value)
  {
    if events != [] {
      var before := events[..|events| - 1];
      PlayKeepsInv(s, before);
      Runs.LoopStepKeepsInv(Play(s, before).value, events[|events| - 1]);
    }
  }

  /** No event of the list, played from `s`, is one of the three losing ones. */
  ghost predicate LosesNothing(s: State, events: seq<Event>) {
    events == [] ||
    (var before, e := Play(s, events[..|events| - 1]), events[|events| - 1];
     && LosesNothing(s, events[..|events| - 1])
     && before.Some? && Possible(before.value, e) && !Theorems.Loses(before.value, e))
  }

  /** Playing events conserves the accepted calls exactly when none of them loses one. */
  lemma {:induction false} PlayConserves(s: State, events: seq<Event>)
    requires Inv(s) && Play(s, events).Some?
    ensures Conserved(Play(s, events).value) <==> Conserved(s) && LosesNothing(s, events)
  {
    if events != [] {
      var before := events[..|events| - 1];
      PlayConserves(s, before);
      PlayKeepsInv(s, before);
      Theorems.StepConserves(Play(s, before).value, events[|events| - 1]);
    }
  }

  /** What `Play` reaches is the end of a run in the sense of EventLoopTheorems. */
  lemma {:induction false} PlayIsARun(workers: nat, events: seq<Event>) returns (states: seq<State>)
    requires Play(Initial(workers), events).Some?
    ensures Theorems.IsLoopRun(states, events, workers)
    ensures states[|events|] == Play(Initial(workers), events).value
  {
    if events == [] {
      states := [Initial(workers)];
    } else {
      var before := events[..|events| - 1];
      var run := PlayIsARun(workers, before);
      states := run + [Next(run[|before|], events[|events| - 1])];
      RunGrows(workers, run, before, events[|events| - 1]);
      assert before + [events[|events| - 1]] == events;
    }
  }

  lemma RunGrows(workers: nat, states: seq<State>, events: seq<Event>, e: Event)
    requires Theorems.IsLoopRun(states, events, workers) && Possible(states[|events|], e)
    ensures Theorems.IsLoopRun(states + [Next(states[|events|], e)], events + [e], workers)
  {
    var longer, all := states + [Next(states[|events|], e)], events + [e];
    forall i | 0 <= i < |all| ensures Possible(longer[i], all[i]) && longer[i + 1] == Next(longer[i], all[i]) {
      assert longer[i] == states[i];
    }
  }

  /** The lines the reading loop consumes, as events. */
  ghost function DrainEvents(s: State, lines: seq<Incoming>): seq<Event>
    decreases |lines|
  {
    if lines == [] then []
    else [Line(lines[0])] +
         (if Stops(s, lines[0]) then [] else DrainEvents(Handle(s, lines[0]), lines[1..]))
  }

  lemma {:induction false} DrainPlays(s: State, lines: seq<Incoming>)
    ensures Play(s, DrainEvents(s, lines)) == Some(Theorems.Drain(s, lines))
    decreases |lines|
  {
    if lines != [] {
      var e := Line(lines[0]);
      PlayOne(s, [], e);
      assert [] + [e] == [e];
      if !Stops(s, lines[0]) {
        DrainPlays(Handle(s, lines[0]), lines[1..]);
        PlayBoth(s, [e], DrainEvents(Handle(s, lines[0]), lines[1..]));
      } else {
        assert [e] + [] == [e];
      }
    }
  }

  /** One collection per busy entry that the poll reported. */
  function ReadyEvents(busy: seq<nat>, ready: set<nat>): seq<Event> {
    if busy == [] then []
    else ReadyEvents(busy[..|busy| - 1], ready) +
         (if busy[|busy| - 1] in ready then [WorkerReady(busy[|busy| - 1])] else [])
  }

  /** The tool threads that are not done keep their order. */
  function Kept(tools: seq<Tool>, polled: seq<Option<bool>>): seq<Tool>
    requires |tools| == |polled|
  {
    if tools == [] then []
    else (if polled[0].None? then [tools[0]] else []) + Kept(tools[1..], polled[1..])
  }

  /** A tool that is done is collected at the position left by the earlier ones. */
  function ToolEvents(polled: seq<Option<bool>>, at: nat): seq<Event> {
    if polled == [] then []
    else if polled[0].None? then ToolEvents(polled[1..], at + 1)
    else [ToolReady(at, polled[0].value)] + ToolEvents(polled[1..], at)
  }

  lemma {:induction false} KeptAppend(a: seq<Tool>, p: seq<Option<bool>>, b: seq<Tool>, q: seq<Option<bool>>)
    requires |a| == |p| && |b| == |q|
    ensures Kept(a + b, p + q) == Kept(a, p) + Kept(b, q)
  {
    if a == [] {
      assert a + b == b && p + q == q;
    } else {
      KeptAppend(a[1..], p[1..], b, q);
      assert (a + b)[1..] == a[1..] + b && (p + q)[1..] == p[1..] + q;
      Assoc(if p[0].None? then [a[0]] else [], Kept(a[1..], p[1..]), Kept(b, q));
    }
  }

  lemma {:induction false} KeptAll(tools: seq<Tool>, polled: seq<Option<bool>>)
    requires |tools| == |polled| && forall i | 0 <= i < |polled| :: polled[i].None?
    ensures Kept(tools, polled) == tools
  {
    if tools != [] { KeptAll(tools[1..], polled[1..]); }
  }

  lemma {:induction false} ToolEventsStep(polled: seq<Option<bool>>, at: nat, p: Option<bool>, kept: nat)
    requires kept == at + NotDone(polled)
    ensures ToolEvents(polled + [p], at) ==
            ToolEvents(polled, at) + (if p.None? then [] else [ToolReady(kept, p.value)])
  {
    if polled == [] {
      assert polled + [p] == [p] && [p][1..] == [];
    } else {
      assert (polled + [p])[1..] == polled[1..] + [p];
      if polled[0].None? {
        ToolEventsStep(polled[1..], at + 1, p, kept);
      } else {
        ToolEventsStep(polled[1..], at, p, kept);
      }
    }
  }

  function NotDone(polled: seq<Option<bool>>): nat {
    if polled == [] then 0 else (if polled[0].None? then 1 else 0) + NotDone(polled[1..])
  }

  lemma {:induction false} KeptLength(tools: seq<Tool>, polled: seq<Option<bool>>)
    requires |tools| == |polled|
    ensures |Kept(tools, polled)| == NotDone(polled)
  {
    if tools != [] { KeptLength(tools[1..], polled[1..]); }
  }

  /** The loop's first pass over the tools: the state in which the ones that are
      done among the first `i` have been collected. */
  ghost function Collected(s: State, tools: seq<Tool>, polled: seq<Option<bool>>, i: nat): State
    requires |tools| == |polled| && i <= |tools|
  {
    s.(tools := Kept(tools[..i], polled[..i]) + tools[i..])
  }

  lemma KeptStep(tools: seq<Tool>, polled: seq<Option<bool>>, i: nat)
    requires |tools| == |polled| && i < |tools|
    ensures var kept := Kept(tools[..i], polled[..i]);
            && |kept| == NotDone(polled[..i])
            && kept + tools[i..] == kept + [tools[i]] + tools[i + 1..]
            && Kept(tools[..i + 1], polled[..i + 1]) == kept + (if polled[i].None? then [tools[i]] else [])
  {
    KeptLength(tools[..i], polled[..i]);
    assert tools[..i + 1] == tools[..i] + [tools[i]] && polled[..i + 1] == polled[..i] + [polled[i]];
    KeptAppend(tools[..i], polled[..i], [tools[i]], [polled[i]]);
    assert [tools[i]][1..] == [] && [polled[i]][1..] == [];
    assert tools[i..] == [tools[i]] + tools[i + 1..];
  }

  lemma CollectedNone(s: State, polled: seq<Option<bool>>)
    requires |s.tools| == |polled|
    ensures Play(s, ToolEvents(polled[..0], 0)) == Some(Collected(s, s.tools, polled, 0))
  {
    assert s.tools[0..] == s.tools;
    assert Collected(s, s.tools, polled, 0) == s;
    assert polled[..0] == [];
    assert Play(s, []) == Some(s);
  }

  lemma CollectedAll(s: State, polled: seq<Option<bool>>)
    requires |s.tools| == |polled|
    ensures Collected(s, s.tools, polled, |polled|) == s.(tools := Kept(s.tools, polled))
  {
    assert s.tools[..|polled|] == s.tools && polled[..|polled|] == polled;
  }

  lemma CollectedStep(s0: State, s: State, polled: seq<Option<bool>>, i: nat)
    requires |s.tools| == |polled| && i < |polled|
    requires Play(s0, ToolEvents(polled[..i], 0)) == Some(Collected(s, s.tools, polled, i))
    ensures Play(s0, ToolEvents(polled[..i + 1], 0)) == Some(
              if polled[i].None? then Collected(s, s.tools, polled, i + 1)
              else Collected(CollectTool(s, i, polled[i].value).(tools := s.tools), s.tools, polled, i + 1))
  {
    var kept := Kept(s.tools[..i], polled[..i]);
    KeptStep(s.tools, polled, i);
    ToolEventsStep(polled[..i], 0, polled[i], |kept|);
    assert polled[..i + 1] == polled[..i] + [polled[i]];
    if polled[i].Some? {
      CollectedDone(s, polled, i);
      PlayOne(s0, ToolEvents(polled[..i], 0), ToolReady(|kept|, polled[i].value));
    } else {
      CollectedOpen(s, polled, i);
      assert ToolEvents(polled[..i], 0) + [] == ToolEvents(polled[..i], 0);
    }
  }

  lemma TakeOutMiddle(kept: seq<Tool>, x: Tool, rest: seq<Tool>, all: seq<Tool>)
    requires all == kept + ([x] + rest)
    ensures |kept| < |all| && all[|kept|] == x && all[..|kept|] + all[|kept| + 1..] == kept + rest
  {
  }

  lemma CollectedDone(s: State, polled: seq<Option<bool>>, i: nat)
    requires |s.tools| == |polled| && i < |polled| && polled[i].Some?
    ensures var now := Collected(s, s.tools, polled, i);
            var e := ToolReady(|Kept(s.tools[..i], polled[..i])|, polled[i].value);
            && Possible(now, e)
            && Next(now, e) == Collected(CollectTool(s, i, polled[i].value).(tools := s.tools), s.tools, polled, i + 1)
  {
    var kept := Kept(s.tools[..i], polled[..i]);
    KeptStep(s.tools, polled, i);
    assert s.tools[i..] == [s.tools[i]] + s.tools[i + 1..];
    TakeOutMiddle(kept, s.tools[i], s.tools[i + 1..], kept + s.tools[i..]);
    assert kept + [] == kept;
  }

  lemma CollectedOpen(s: State, polled: seq<Option<bool>>, i: nat)
    requires |s.tools| == |polled| && i < |polled| && polled[i].None?
    ensures Collected(s, s.tools, polled, i) == Collected(s, s.tools, polled, i + 1)
  {
    KeptStep(s.tools, polled, i);
  }

  /** The loop is at tool `i`, in state `s` but for the entries to be erased. */
  ghost predicate PolledUpTo(s0: State, s: State, polled: seq<Option<bool>>, i: nat) {
    && |s.tools| == |polled| && i <= |polled|
    && Play(s0, ToolEvents(polled[..i], 0)) == Some(Collected(s, s.tools, polled, i))
  }

  lemma ToolStep(s0: State, s: State, s': State, polled: seq<Option<bool>>, i: nat)
    requires PolledUpTo(s0, s, polled, i) && i < |polled|
    requires s' == if polled[i].None? then s else CollectTool(s, i, polled[i].value).(tools := s.tools)
    ensures PolledUpTo(s0, s', polled, i + 1)
  {
    CollectedStep(s0, s, polled, i);
  }

  lemma DoneStep(polled: seq<Option<bool>>, i: nat)
    requires i < |polled|
    ensures DoneIn(polled[..i + 1]) == DoneIn(polled[..i]) + (if polled[i].Some? then [i] else [])
  {
    assert polled[..i + 1][..i] == polled[..i];
  }

  lemma FlagStep(tools: seq<Tool>, id: JsonId, i: nat)
    requires i < |tools|
    ensures var now := Flagged(tools, id)[..i] + tools[i..];
            now[i] == tools[i]
            && now[i := Flagged(tools, id)[i]] == Flagged(tools, id)[..i + 1] + tools[i + 1..]
  {
  }

  lemma ReadyStep(s0: State, s: State, s': State, busy: seq<nat>, ready: set<nat>, n: nat)
    requires n < |busy| && Play(s0, ReadyEvents(busy[..n], ready)) == Some(s)
    requires if busy[n] in ready
             then Possible(s, WorkerReady(busy[n])) && s' == Next(s, WorkerReady(busy[n]))
             else s' == s
    ensures Play(s0, ReadyEvents(busy[..n + 1], ready)) == Some(s')
  {
    assert busy[..n + 1][..n] == busy[..n] && busy[..n + 1][n] == busy[n];
    if busy[n] in ready {
      PlayOne(s0, ReadyEvents(busy[..n], ready), WorkerReady(busy[n]));
    } else {
      assert ReadyEvents(busy[..n], ready) + [] == ReadyEvents(busy[..n], ready);
    }
  }

  /** Indices of the tools that are done, in order. */
  function DoneIn(polled: seq<Option<bool>>): seq<nat> {
    if polled == [] then []
    else DoneIn(polled[..|polled| - 1]) + (if polled[|polled| - 1].Some? then [|polled| - 1] else [])
  }

  /** `d` is the last tool that is done. */
  predicate IsLastDone(polled: seq<Option<bool>>, d: nat) {
    d < |polled| && polled[d].Some? && forall i | d < i < |polled| :: polled[i].None?
  }

  lemma {:induction false} LastDone(polled: seq<Option<bool>>)
    ensures var done := DoneIn(polled);
            if done == [] then forall i | 0 <= i < |polled| :: polled[i].None?
            else var d := done[|done| - 1];
                 IsLastDone(polled, d) && done[..|done| - 1] == DoneIn(polled[..d])
  {
    if polled != [] {
      var n := |polled| - 1;
      if polled[n].Some? {
        assert DoneIn(polled)[..|DoneIn(polled[..n])|] == DoneIn(polled[..n]);
      } else {
        var done := DoneIn(polled[..n]);
        LastDone(polled[..n]);
        if done != [] { StillLastDone(polled, polled[..n], done[|done| - 1]); }
      }
    }
  }

  lemma StillLastDone(polled: seq<Option<bool>>, front: seq<Option<bool>>, d: nat)
    requires polled != [] && front == polled[..|polled| - 1] && polled[|polled| - 1].None?
    requires IsLastDone(front, d)
    ensures IsLastDone(polled, d) && front[..d] == polled[..d]
  {
    assert polled[d] == front[d];
    forall i | d < i < |polled| ensures polled[i].None? {
      if i < |front| { assert polled[i] == front[i]; }
    }
  }

  lemma EraseOne(tools: seq<Tool>, polled: seq<Option<bool>>, d: nat, from: nat)
    requires |tools| == |polled| && d < from <= |tools| && polled[d].Some?
    requires forall i | d < i < from :: polled[i].None?
    ensures var now := tools[..from] + Kept(tools[from..], polled[from..]);
            d < |now| && now[..d] + now[d + 1..] == tools[..d] + Kept(tools[d..], polled[d..])
  {
    KeptRange(tools, polled, d, from);
  }

  /** The slots are as before, whatever the workers did. */
  ghost predicate SameSlots(before: seq<Link>, after: seq<Link>) {
    |after| == |before| && forall i | 0 <= i < |before| :: after[i].slot == before[i].slot
  }

  lemma MoveStep(s0: State, s: State, trace: seq<Event>, i: nat, step: Step)
    requires Play(s0, trace) == Some(s) && Possible(s, WorkerMoves(i, step)) && SameSlots(s0.links, s.links)
    ensures Play(s0, trace + [WorkerMoves(i, step)]) == Some(s.(links := s.links[i := Apply(s.links[i], step)]))
    ensures SameSlots(s0.links, s.links[i := Apply(s.links[i], step)])
  {
    PlayOne(s0, trace, WorkerMoves(i, step));
  }

  lemma LastErased(polled: seq<Option<bool>>, done: seq<nat>, n: nat, from: nat)
    requires n < |done| && from <= |polled| && done[..n + 1] == DoneIn(polled[..from])
    ensures done[n] < from && polled[done[n]].Some? && forall i | done[n] < i < from :: polled[i].None?
    ensures done[..n] == DoneIn(polled[..done[n]])
  {
    LastDone(polled[..from]);
    assert done[n] == done[..n + 1][n] && done[..n + 1][..n] == done[..n];
    assert polled[..from][..done[n]] == polled[..done[n]];
    forall i | done[n] < i < from ensures polled[i].None? { assert polled[i] == polled[..from][i]; }
  }

  datatype Exit = GoesOn | Shutdown | EndOfInput | NothingToPoll

  /** What one poll reports: steps the workers took meanwhile, whether it was
      interrupted, new input, and which descriptors are ready. */
  datatype Wake = Wake(shutdown: bool, moves: seq<(nat, Step)>, interrupted: bool,
                       lines: seq<Incoming>, eof: bool,
                       ready: set<nat>, payloads: map<nat, bool>)

  // ---- What one pass must do ----------------------------------------------------------

  /** A step a worker takes on its own. */
  predicate IsOwnMove(links: seq<Link>, move: (nat, Step)) {
    && move.0 < |links| && Enabled(links[move.0], move.1)
    && !move.1.Dispatch? && !move.1.Cancel? && !move.1.Collect?
  }

  /** The links after the workers moved; impossible moves do not happen. */
  function Moved(links: seq<Link>, moves: seq<(nat, Step)>): seq<Link>
    decreases |moves|
  {
    if moves == [] then links
    else
      var now := Moved(links, moves[..|moves| - 1]);
      var (i, step) := moves[|moves| - 1];
      if IsOwnMove(now, (i, step)) then now[i := Apply(now[i], step)] else now
  }

  /** A finished call has been answered, or silenced if it was cancelled. */
  predicate Finished(s: State, call: Call, cancelled: bool) {
    if cancelled then call in s.silenced else Answer(call) in s.output
  }

  /** From `m`, the state after the poll: every busy slot that is reported and is
      readable has been collected, and no other slot has changed. */
  ghost predicate WorkersServed(m: State, after: State, ready: set<nat>) {
    && |after.links| == |m.links|
    && forall k | 0 <= k < |m.links| ::
         if k in ready && m.links[k].slot.Busy? && Readable(m.links[k])
         then after.links[k].slot.Idle? && Finished(after, m.links[k].slot.call, m.links[k].slot.cancelled)
         else after.links[k] == m.links[k]
  }

  /** The first `n` tools without those that were reported. */
  function Unreported(tools: seq<Tool>, payloads: map<nat, bool>, n: nat): seq<Tool>
    requires n <= |tools|
  {
    if n == 0 then []
    else Unreported(tools, payloads, n - 1) + if n - 1 in payloads then [] else [tools[n - 1]]
  }

  /** Every tool that was reported is gone, its call answered, silenced, or lost when
      its payload could not be read; the others remain, in order. */
  ghost predicate ToolsServed(m: State, after: State, payloads: map<nat, bool>) {
    && after.tools == Unreported(m.tools, payloads, |m.tools|)
    && forall i | 0 <= i < |m.tools| && i in payloads ::
         if payloads[i] || m.tools[i].cancelled
         then Finished(after, m.tools[i].call, m.tools[i].cancelled)
         else Unreadable(m.tools[i].call) in after.lost
  }

  /** Everything a pass promises: which exit it takes, what it leaves unread, and
      that whatever the poll reports has been served. */
  ghost predicate PassStep(s: State, lines: seq<Incoming>, eof: bool, w: Wake,
                           exit: Exit, after: State, rest: seq<Incoming>, atEof: bool) {
    if w.shutdown then exit == Shutdown && after == s && rest == lines && atEof == eof
    else
      var a, unread := Theorems.Drain(DispatchBuffered(s), lines), Theorems.Unread(DispatchBuffered(s), lines);
      var polls := !eof && a.buffered == None;
      && (a.buffered.Some? ==> AllBusy(a.links))
      && if eof && a.inFlight == 0 && a.buffered == None then
           exit == EndOfInput && after == a && rest == unread && atEof == eof
         else if !polls && BusyFrom(a.links, 0) == [] && a.tools == [] then
           exit == NothingToPoll && after == a && rest == unread && atEof == eof
         else
           var m := a.(links := Moved(a.links, w.moves));
           && exit == GoesOn
           && if w.interrupted then after == m && rest == unread && atEof == eof
              else
                && WorkersServed(m, after, w.ready) && ToolsServed(m, after, w.payloads)
                && after.buffered == a.buffered
                && (if polls then rest == unread + w.lines && atEof == w.eof else rest == unread && atEof == eof)
  }

  /** What one pass hands to the next: the lines not yet read and whether the input
      has ended. */
  datatype Input = Input(lines: seq<Incoming>, eof: bool)

  /** The states and inputs between the passes of one loop; only the last pass may
      leave it, and it goes on while wake-ups come. */
  ghost predicate IsPassRun(env: seq<Wake>, exit: Exit, states: seq<State>, inputs: seq<Input>) {
    && 0 < |states| == |inputs| <= |env| + 1 && inputs[0] == Input([], false)
    && (exit.GoesOn? ==> |states| == |env| + 1)
    && forall n | 0 <= n < |states| - 1 ::
         PassStep(states[n], inputs[n].lines, inputs[n].eof, env[n], if n == |states| - 2 then exit else GoesOn,
                  states[n + 1], inputs[n + 1].lines, inputs[n + 1].eof)
  }

  lemma OneMorePass(env: seq<Wake>, exit: Exit, states: seq<State>, inputs: seq<Input>, s: State, next: Input)
    requires 0 < |states| <= |env| && IsPassRun(env[..|states| - 1], GoesOn, states, inputs)
    requires var n := |states| - 1;
             PassStep(states[n], inputs[n].lines, inputs[n].eof, env[n], exit, s, next.lines, next.eof)
    ensures IsPassRun(env[..|states|], exit, states + [s], inputs + [next])
    ensures !exit.GoesOn? ==> IsPassRun(env, exit, states + [s], inputs + [next])
  {
  }

  lemma OneMoreMove(links: seq<Link>, moves: seq<(nat, Step)>, n: nat)
    requires n < |moves|
    ensures var now := Moved(links, moves[..n]);
            Moved(links, moves[..n + 1]) ==
            if IsOwnMove(now, moves[n]) then now[moves[n].0 := Apply(now[moves[n].0], moves[n].1)] else now
  {
    assert moves[..n + 1][..n] == moves[..n];
  }

  /** The first `n` of the polled slots have been served. */
  ghost predicate ServedUpTo(s0: State, s: State, busy: seq<nat>, ready: set<nat>) {
    && |s.links| == |s0.links| && s.tools == s0.tools && s.buffered == s0.buffered
    && forall k | 0 <= k < |s0.links| ::
         if k in busy && k in ready && s0.links[k].slot.Busy?
         then s.links[k].slot.Idle? && Finished(s, s0.links[k].slot.call, s0.links[k].slot.cancelled)
         else s.links[k] == s0.links[k]
  }

  lemma FinishedStays(s: State, s': State, call: Call, cancelled: bool)
    requires Finished(s, call, cancelled) && s.output <= s'.output && s.silenced <= s'.silenced
    ensures Finished(s', call, cancelled)
  {
    if cancelled {
      var i :| 0 <= i < |s.silenced| && s.silenced[i] == call;
      assert s'.silenced[i] == call;
    } else {
      var i :| 0 <= i < |s.output| && s.output[i] == Answer(call);
      assert s'.output[i] == Answer(call);
    }
  }

  lemma CollectFinishes(s: State, i: nat)
    requires i < |s.links| && Enabled(s.links[i], Collect)
    ensures var s', l := CollectWorker(s, i), s.links[i];
            && s'.links[i].slot.Idle? && Finished(s', l.slot.call, l.slot.cancelled)
            && s.output <= s'.output && s.silenced <= s'.silenced
            && s'.tools == s.tools && s'.buffered == s.buffered && |s'.links| == |s.links|
            && forall k | 0 <= k < |s.links| && k != i :: s'.links[k] == s.links[k]
  {
  }

  lemma ServeOneMore(s0: State, s: State, s': State, busy: seq<nat>, ready: set<nat>, b: nat)
    requires ServedUpTo(s0, s, busy, ready) && b !in busy
    requires if b in ready
             then b < |s.links| && Enabled(s.links[b], Collect) && s' == CollectWorker(s, b)
             else s' == s
    ensures ServedUpTo(s0, s', busy + [b], ready)
  {
    if b in ready {
      CollectFinishes(s, b);
      forall k | 0 <= k < |s0.links| && k in busy && k in ready && s0.links[k].slot.Busy?
        ensures s'.links[k].slot.Idle? && Finished(s', s0.links[k].slot.call, s0.links[k].slot.cancelled)
      {
        FinishedStays(s, s', s0.links[k].slot.call, s0.links[k].slot.cancelled);
      }
    }
  }

  /** A tool thread's call is done with. */
  predicate ToolDone(s: State, t: Tool, readable: bool) {
    if readable || t.cancelled then Finished(s, t.call, t.cancelled) else Unreadable(t.call) in s.lost
  }

  ghost predicate TakenUpTo(s0: State, s: State, polled: seq<Option<bool>>, n: nat)
    requires n <= |s0.tools| == |polled|
  {
    && s.links == s0.links && s.buffered == s0.buffered && s0.output <= s.output && s0.silenced <= s.silenced
    && forall i | 0 <= i < n && polled[i].Some? :: ToolDone(s, s0.tools[i], polled[i].value)
  }

  lemma ToolDoneStays(s: State, s': State, t: Tool, readable: bool)
    requires ToolDone(s, t, readable)
    requires s.output <= s'.output && s.silenced <= s'.silenced && s.lost <= s'.lost
    ensures ToolDone(s', t, readable)
  {
    if readable || t.cancelled {
      FinishedStays(s, s', t.call, t.cancelled);
    } else {
      var i :| 0 <= i < |s.lost| && s.lost[i] == Unreadable(t.call);
      assert s'.lost[i] == Unreadable(t.call);
    }
  }

  lemma TakeOneMore(s0: State, s: State, s': State, polled: seq<Option<bool>>, i: nat)
    requires i < |s0.tools| == |polled| && TakenUpTo(s0, s, polled, i) && s.tools == s0.tools
    requires s' == if polled[i].None? then s else CollectTool(s, i, polled[i].value).(tools := s.tools)
    ensures TakenUpTo(s0, s', polled, i + 1)
  {
    if polled[i].Some? {
      forall j | 0 <= j < i && polled[j].Some? ensures ToolDone(s', s0.tools[j], polled[j].value) {
        ToolDoneStays(s, s', s0.tools[j], polled[j].value);
      }
      ToolIsDone(s, i, polled[i].value);
    }
  }

  lemma ToolIsDone(s: State, i: nat, readable: bool)
    requires i < |s.tools|
    ensures ToolDone(CollectTool(s, i, readable).(tools := s.tools), s.tools[i], readable)
  {
  }

  lemma {:induction false} KeptIsUnreported(
      tools: seq<Tool>, polled: seq<Option<bool>>, payloads: map<nat, bool>, n: nat)
    requires n <= |tools| == |polled| && forall i | 0 <= i < |polled| :: polled[i].Some? <==> i in payloads
    ensures Kept(tools[..n], polled[..n]) == Unreported(tools, payloads, n)
  {
    if n > 0 {
      KeptIsUnreported(tools, polled, payloads, n - 1);
      KeptStep(tools, polled, n - 1);
    }
  }

  lemma AllServed(s0: State, s1: State, s2: State, busy: seq<nat>, ready: set<nat>, w: Wake,
                  polled: seq<Option<bool>>)
    requires forall k | 0 <= k < |s0.links| && s0.links[k].slot.Busy? :: k in busy
    requires forall k | 0 <= k < |s0.links| :: k in ready <==> k in w.ready && Readable(s0.links[k])
    requires ServedUpTo(s0, s1, busy, ready) && |polled| == |s1.tools| && TakenUpTo(s1, s2, polled, |polled|)
    requires forall i | 0 <= i < |polled| ::
               polled[i] == if i in w.payloads then Some(w.payloads[i]) else None
    requires s2.tools == Kept(s1.tools, polled)
    ensures WorkersServed(s0, s2, w.ready) && ToolsServed(s0, s2, w.payloads)
  {
    forall k | 0 <= k < |s0.links| && k in ready && s0.links[k].slot.Busy?
      ensures Finished(s2, s0.links[k].slot.call, s0.links[k].slot.cancelled)
    {
      FinishedStays(s1, s2, s0.links[k].slot.call, s0.links[k].slot.cancelled);
    }
    KeptIsUnreported(s1.tools, polled, w.payloads, |s1.tools|);
    assert s1.tools[..|s1.tools|] == s1.tools && polled[..|s1.tools|] == polled;
    forall i | 0 <= i < |s0.tools| && i in w.payloads
      ensures if w.payloads[i] || s0.tools[i].cancelled
              then Finished(s2, s0.tools[i].call, s0.tools[i].cancelled)
              else Unreadable(s0.tools[i].call) in s2.lost
    {
      assert polled[i].Some? && ToolDone(s2, s1.tools[i], polled[i].value);
    }
  }

  class Loop {
    const pool: Pool
    var buffered: Option<Call>
    var tools: seq<Tool>
    var inFlight: int
    var output: seq<Output>
    var arrivals: nat
    ghost var accepted: seq<Call>
    ghost var silenced: seq<Call>
    ghost var lost: seq<Loss>
    ghost var reached: set<Call>

    ghost function Now(): State
      reads this, pool
    {
      State(pool.links, buffered, tools, inFlight, output, accepted, silenced, lost, reached)
    }

    ghost predicate Valid()
      reads this
    {
      arrivals == |accepted|
    }

    constructor (workers: nat)
      ensures Valid() && fresh(pool) && Now() == Initial(workers)
      ensures Inv(Now()) && Conserved(Now())
    {
      Runs.InitialInv(workers);
      Theorems.ConservedMeansNothingLost(Initial(workers));
      pool := new Pool(workers);
      buffered, tools, inFlight, output, arrivals := None, [], 0, [], 0;
      accepted, silenced, lost, reached := [], [], [], {};
    }

    method SendBufferedCommand()
      requires Valid()
      modifies this, pool
      ensures Valid() && Now() == DispatchBuffered(old(Now()))
    {
      if buffered.Some? {
        var idle := pool.IdleCount();
        if idle > 0 {
          var call := buffered.value;
          var ok := pool.TryDispatch(call);
          if !ok { lost := lost + [Unsent(call)]; } else { assert lost + [] == lost; }
          buffered := None;
          inFlight := inFlight + 1;
        }
      }
    }

    method FlagTools(id: JsonId)
      modifies this`tools
      ensures tools == Flagged(old(tools), id)
    {
      var i := 0;
      while i < |tools|
        invariant 0 <= i <= |tools| == |old(tools)|
        invariant tools == Flagged(old(tools), id)[..i] + old(tools)[i..]
      {
        FlagStep(old(tools), id, i);
        if tools[i].call.id == id {
          tools := tools[i := tools[i].(cancelled := true)];
        }
        i := i + 1;
      }
    }

    method CancelCall(id: JsonId)
      requires Valid()
      modifies this, pool
      ensures Valid() && Now() == CancelInFlight(old(Now()), id)
    {
      ghost var k := FirstHolding(pool.links, id);
      if buffered.Some? && buffered.value.id == id {
        silenced := silenced + [buffered.value];
        reached := reached + {buffered.value};
        buffered := None;
        return;
      }
      ghost var links := pool.links;
      var hit := pool.Cancel(id);
      if hit {
        reached := reached + {links[k].slot.call};
        return;
      }
      FlagTools(id);
      reached := reached + set t | t in old(tools) && t.call.id == id :: t.call;
    }

    method StartTool(call: Call, threadStarts: bool)
      requires Valid()
      modifies this
      ensures Valid() && Now() == AcceptTool(old(Now()), call, threadStarts)
    {
      accepted := accepted + [call];
      arrivals := arrivals + 1;
      if !threadStarts {
        output := output + [Answer(call)];
        return;
      }
      tools := tools + [Tool(call, false)];
      inFlight := inFlight + 1;
    }

    /** Handles buffered lines until one stops the loop; returns the unread ones. */
    method ReadLines(lines: seq<Incoming>) returns (rest: seq<Incoming>)
      requires Valid()
      modifies this, pool
      ensures Valid() && Now() == Theorems.Drain(old(Now()), lines)
      ensures rest == Theorems.Unread(old(Now()), lines)
    {
      rest := lines;
      while |rest| > 0
        invariant Valid()
        invariant Theorems.Drain(Now(), rest) == Theorems.Drain(old(Now()), lines)
        invariant Theorems.Unread(Now(), rest) == Theorems.Unread(old(Now()), lines)
        decreases |rest|
      {
        var line := rest[0];
        rest := rest[1..];
        match line.message {
          case Blank =>
          case Notification =>
          case Malformed(id) => output := output + [ProtocolError(id)];
          case Protocol(id) => output := output + [ProtocolReply(id)];
          case Cancelled(id) => CancelCall(id);
          case ToolCall(id) => StartTool(Call(arrivals, id), line.threadStarts);
          case CommandCall(id) =>
            var stop := TakeCommand(Call(arrivals, id));
            if stop { return; }
        }
      }
    }

    /** A command goes to an idle worker, or into the slot. */
    method TakeCommand(call: Call) returns (stop: bool)
      requires Valid()
      modifies this, pool
      ensures Valid() && Now() == AcceptCommand(old(Now()), call)
      ensures stop <==> AllBusy(old(pool.links))
    {
      var idle := pool.IdleCount();
      accepted := accepted + [call];
      arrivals := arrivals + 1;
      if idle == 0 {
        if buffered.Some? { lost := lost + [Overwritten(buffered.value)]; } else { assert lost + [] == lost; }
        buffered := Some(call);
        return true;
      }
      var ok := pool.TryDispatch(call);
      if !ok { lost := lost + [Unsent(call)]; } else { assert lost + [] == lost; }
      inFlight := inFlight + 1;
      return false;
    }

    method CollectOneWorker(i: nat)
      requires Valid() && i < |pool.links| && Enabled(pool.links[i], Collect)
      modifies this, pool
      ensures Valid() && Now() == CollectWorker(old(Now()), i)
    {
      var v := pool.Collect(i);
      if !v.suppressed { output := output + [Answer(v.call)]; } else { silenced := silenced + [v.call]; }
      inFlight := inFlight - 1;
    }

    method CollectWorkers(busy: seq<nat>, ready: set<nat>)
      requires Valid()
      requires forall a, b | 0 <= a < b < |busy| :: busy[a] != busy[b]
      requires forall a | 0 <= a < |busy| && busy[a] in ready ::
                 busy[a] < |pool.links| && Enabled(pool.links[busy[a]], Collect)
      modifies this, pool
      ensures Valid() && Play(old(Now()), ReadyEvents(busy, ready)) == Some(Now())
      ensures ServedUpTo(old(Now()), Now(), busy, ready)
    {
      ghost var s0 := Now();
      for n := 0 to |busy|
        invariant Valid() && ServedUpTo(s0, Now(), busy[..n], ready)
        invariant forall a | n <= a < |busy| && busy[a] in ready ::
                    busy[a] < |pool.links| && Enabled(pool.links[busy[a]], Collect)
        invariant Play(s0, ReadyEvents(busy[..n], ready)) == Some(Now())
      {
        ghost var s := Now();
        if busy[n] in ready {
          CollectOneWorker(busy[n]);
        }
        ReadyStep(s0, s, Now(), busy, ready, n);
        ServeOneMore(s0, s, Now(), busy[..n], ready, busy[n]);
        assert busy[..n + 1] == busy[..n] + [busy[n]];
      }
      assert busy[..|busy|] == busy;
    }

    /** Reads one tool's payload; its entry is erased later. */
    method TakeReply(i: nat, readable: bool)
      requires Valid() && i < |tools|
      modifies this
      ensures Valid() && Now() == CollectTool(old(Now()), i, readable).(tools := old(tools))
    {
      var t := tools[i];
      if readable && !t.cancelled { output := output + [Answer(t.call)]; }
      if t.cancelled { silenced := silenced + [t.call]; }
      if !readable && !t.cancelled { lost := lost + [Unreadable(t.call)]; }
      inFlight := inFlight - 1;
    }

    method CollectTools(polled: seq<Option<bool>>)
      requires Valid() && |polled| == |tools|
      modifies this
      ensures Valid() && Play(old(Now()), ToolEvents(polled, 0)) == Some(Now())
      ensures TakenUpTo(old(Now()), Now(), polled, |polled|) && tools == Kept(old(tools), polled)
    {
      ghost var s0 := Now();
      var done: seq<nat> := [];
      CollectedNone(s0, polled);
      for i := 0 to |tools|
        invariant Valid() && tools == s0.tools && done == DoneIn(polled[..i])
        invariant PolledUpTo(s0, Now(), polled, i) && TakenUpTo(s0, Now(), polled, i)
      {
        ghost var s := Now();
        DoneStep(polled, i);
        if polled[i].Some? {
          TakeReply(i, polled[i].value);
          done := done + [i];
        }
        ToolStep(s0, s, Now(), polled, i);
        TakeOneMore(s0, s, Now(), polled, i);
      }
      assert polled[..|tools|] == polled;
      CollectedAll(Now(), polled);
      EraseDone(done, polled);
    }

    /** Erases from the last index to the first, so the earlier ones stay valid. */
    method EraseDone(done: seq<nat>, ghost polled: seq<Option<bool>>)
      requires |polled| == |tools| && done == DoneIn(polled)
      modifies this`tools
      ensures tools == Kept(old(tools), polled)
    {
      ghost var tools0 := tools;
      var n := |done|;
      ghost var from: nat := |tools|;
      assert polled[..from] == polled;
      while n > 0
        invariant 0 <= n <= |done| && from <= |tools0| == |polled|
        invariant done[..n] == DoneIn(polled[..from])
        invariant tools == tools0[..from] + Kept(tools0[from..], polled[from..])
      {
        n := n - 1;
        var d := done[n];
        LastErased(polled, done, n, from);
        EraseOne(tools0, polled, d, from);
        tools := tools[..d] + tools[d + 1..];
        from := d;
      }
      LastDone(polled[..from]);
      KeptAll(tools0[..from], polled[..from]);
      KeptAppend(tools0[..from], polled[..from], tools0[from..], polled[from..]);
      assert tools0[..from] + tools0[from..] == tools0 && polled[..from] + polled[from..] == polled;
    }

    /** Steps the workers take on their own; impossible ones do not happen. */
    method LetWorkersMove(moves: seq<(nat, Step)>) returns (ghost trace: seq<Event>)
      requires Valid()
      modifies pool
      ensures Valid() && Play(old(Now()), trace) == Some(Now())
      ensures SameSlots(old(pool.links), pool.links) && pool.links == Moved(old(pool.links), moves)
    {
      trace := [];
      ghost var s0 := Now();
      for n := 0 to |moves|
        invariant Valid() && Play(s0, trace) == Some(Now()) && SameSlots(s0.links, pool.links)
        invariant pool.links == Moved(s0.links, moves[..n])
      {
        var i, step := moves[n].0, moves[n].1;
        OneMoreMove(s0.links, moves, n);
        if IsOwnMove(pool.links, (i, step)) {
          MoveStep(s0, Now(), trace, i, step);
          trace := trace + [WorkerMoves(i, step)];
          pool.links := pool.links[i := Apply(pool.links[i], step)];
        }
      }
      assert moves[..|moves|] == moves;
    }

    /** The part of a pass before the poll: the slot, then the buffered lines. */
    method ServeInput(lines: seq<Incoming>) returns (rest: seq<Incoming>, ghost trace: seq<Event>)
      requires Valid()
      modifies this, pool
      ensures Valid() && Play(old(Now()), trace) == Some(Now())
      ensures Now() == Theorems.Drain(DispatchBuffered(old(Now())), lines)
      ensures rest == Theorems.Unread(DispatchBuffered(old(Now())), lines)
    {
      ghost var s0 := Now();
      SendBufferedCommand();
      ghost var s1 := Now();
      rest := ReadLines(lines);
      DrainPlays(s1, lines);
      PlayOne(s0, [], SendBuffered);
      assert [] + [SendBuffered] == [SendBuffered];
      PlayBoth(s0, [SendBuffered], DrainEvents(s1, lines));
      trace := [SendBuffered] + DrainEvents(s1, lines);
    }

    /** The part after the poll: workers that are ready, then tools. */
    method ServeReady(busy: seq<nat>, w: Wake) returns (ghost trace: seq<Event>)
      requires Valid()
      requires forall a, b | 0 <= a < b < |busy| :: busy[a] != busy[b]
      requires forall i | i in busy :: i < |pool.links| && pool.links[i].slot.Busy?
      requires forall i | 0 <= i < |pool.links| && pool.links[i].slot.Busy? :: i in busy
      modifies this, pool
      ensures Valid() && Play(old(Now()), trace) == Some(Now())
      ensures WorkersServed(old(Now()), Now(), w.ready) && ToolsServed(old(Now()), Now(), w.payloads)
      ensures buffered == old(buffered)
    {
      ghost var s0 := Now();
      var ready := set i | i in w.ready && i < |pool.links| && Readable(pool.links[i]);
      forall a | 0 <= a < |busy| && busy[a] in ready
        ensures busy[a] < |pool.links| && Enabled(pool.links[busy[a]], Collect)
      {
        assert busy[a] in busy;
      }
      CollectWorkers(busy, ready);
      ghost var s1 := Now();
      var polled := seq(|tools|, i => if i in w.payloads then Some(w.payloads[i]) else None);
      CollectTools(polled);
      PlayBoth(s0, ReadyEvents(busy, ready), ToolEvents(polled, 0));
      trace := ReadyEvents(busy, ready) + ToolEvents(polled, 0);
      AllServed(s0, s1, Now(), busy, ready, w, polled);
    }

    /** One pass of the loop for one wake-up. */
    method Pass(lines: seq<Incoming>, eof: bool, w: Wake)
      returns (exit: Exit, rest: seq<Incoming>, atEof: bool, ghost trace: seq<Event>)
      requires Valid()
      modifies this, pool
      ensures Valid() && Play(old(Now()), trace) == Some(Now())
      ensures PassStep(old(Now()), lines, eof, w, exit, Now(), rest, atEof)
    {
      atEof := eof;
      if w.shutdown {
        rest, trace := lines, [];
        return Shutdown, rest, atEof, trace;
      }
      ghost var s0 := Now();
      rest, trace := ServeInput(lines);
      Theorems.FullSlotMeansAllBusy(DispatchBuffered(s0), lines);
      if eof && inFlight == 0 && buffered.None? {
        return EndOfInput, rest, atEof, trace;
      }
      var busy := pool.BusyEntries();
      var pollStdin := !eof && buffered.None?;
      if !pollStdin && busy == [] && tools == [] {
        return NothingToPoll, rest, atEof, trace;
      }
      ghost var served := PollAndServe(busy, w);
      PlayBoth(s0, trace, served);
      trace := trace + served;
      if !w.interrupted && pollStdin {
        rest := rest + w.lines;
        atEof := w.eof;
      }
      exit := GoesOn;
    }

    /** The poll, and what is done about workers and tools after it. */
    method PollAndServe(busy: seq<nat>, w: Wake) returns (ghost trace: seq<Event>)
      requires Valid() && busy == BusyFrom(pool.links, 0)
      modifies this, pool
      ensures Valid() && Play(old(Now()), trace) == Some(Now()) && buffered == old(buffered)
      ensures var m := old(Now()).(links := Moved(old(pool.links), w.moves));
              if w.interrupted then Now() == m
              else WorkersServed(m, Now(), w.ready) && ToolsServed(m, Now(), w.payloads)
    {
      ghost var s := Now();
      trace := LetWorkersMove(w.moves);
      if !w.interrupted {
        ghost var served := ServeReady(busy, w);
        PlayBoth(s, trace, served);
        trace := trace + served;
      }
    }

    /** The loop, until it leaves or the wake-ups run out (then `exit` is GoesOn).
        The state it ends in is one the events of EventLoopSpec reach, so the
        invariant holds; it has conserved every accepted call exactly when no event
        lost one; and when it leaves of itself nothing is outstanding, though calls
        written to dead workers may still be counted. */
    method Run(env: seq<Wake>)
      returns (exit: Exit, ghost trace: seq<Event>, ghost states: seq<State>, ghost inputs: seq<Input>)
      requires Valid() && Inv(Now())
      modifies this, pool
      ensures IsPassRun(env, exit, states, inputs) && states[0] == old(Now()) && states[|states| - 1] == Now()
      ensures Valid() && Play(old(Now()), trace) == Some(Now())
      ensures Inv(Now())
      ensures Conserved(Now()) <==> Conserved(old(Now())) && LosesNothing(old(Now()), trace)
      ensures exit.EndOfInput? ==> forall c :: Outstanding(Now(), c) == 0
      ensures exit.NothingToPoll? && |pool.links| > 0 ==>
                UnsentCount(lost) > 0 && forall c :: Outstanding(Now(), c) == 0
    {
      ghost var s0 := Now();
      exit, trace, states, inputs := GoesOn, [], [s0], [Input([], false)];
      var lines: seq<Incoming>, eof := [], false;
      var n := 0;
      while n < |env|
        invariant Valid() && 0 <= n <= |env| && Play(s0, trace) == Some(Now())
        invariant exit.GoesOn? && |states| == n + 1 && IsPassRun(env[..n], GoesOn, states, inputs)
        invariant states[0] == s0 && states[n] == Now() && inputs[n] == Input(lines, eof)
      {
        ghost var wasEof := eof;
        ghost var step: seq<Event>;
        exit, lines, eof, step := Pass(lines, eof, env[n]);
        PlayBoth(s0, trace, step);
        trace := trace + step;
        OneMorePass(env, exit, states, inputs, Now(), Input(lines, eof));
        states, inputs := states + [Now()], inputs + [Input(lines, eof)];
        n := n + 1;
        if !exit.GoesOn? {
          PlayKeepsInv(s0, trace);
          if exit.NothingToPoll? && |pool.links| > 0 {
            Theorems.NothingToPollMeansDone(Now(), wasEof);
          }
          break;
        }
      }
      assert env[..|env|] == env;
      PlayKeepsInv(s0, trace);
      PlayConserves(s0, trace);
      if exit.EndOfInput? {
        forall c ensures Outstanding(Now(), c) == 0 {
          Theorems.EofExitLeavesNothingOutstanding(Now(), c);
        }
      }
    }
  }

  lemma KeptRange(tools: seq<Tool>, polled: seq<Option<bool>>, d: nat, from: nat)
    requires |tools| == |polled| && d < from <= |tools| && polled[d].Some?
    requires forall i | d < i < from :: polled[i].None?
    ensures Kept(tools[d..], polled[d..]) == tools[d + 1..from] + Kept(tools[from..], polled[from..])
  {
    assert tools[d..][1..] == tools[d + 1..from] + tools[from..];
    assert polled[d..][1..] == polled[d + 1..from] + polled[from..];
    KeptAppend(tools[d + 1..from], polled[d + 1..from], tools[from..], polled[from..]);
    KeptAll(tools[d + 1..from], polled[d + 1..from]);
  }
}
