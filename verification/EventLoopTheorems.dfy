/** Statements about whole runs of the event loop, with its workers moving freely
    between the loop's own steps. */
module EventLoopTheorems {
  import opened Requests
  import opened WorkerChannel
  import opened WorkerPool
  import opened EventLoopSpec
  import opened EventLoopRuns

  ghost predicate IsLoopRun(states: seq<State>, events: seq<Event>, workers: nat) {
    && |states| == |events| + 1
    && states[0] == Initial(workers)
    && forall i | 0 <= i < |events| ::
         Possible(states[i], events[i]) && states[i + 1] == Next(states[i], events[i])
  }

  lemma {:induction false} LoopRunKeepsInv(states: seq<State>, events: seq<Event>, workers: nat, i: nat)
    requires IsLoopRun(states, events, workers) && i < |states|
    ensures Inv(states[i])
  {
    if i == 0 {
      InitialInv(workers);
    } else {
      LoopRunKeepsInv(states, events, workers, i - 1);
      LoopStepKeepsInv(states[i - 1], events[i - 1]);
    }
  }

  // ---- Conservation, and the three ways to lose a call ------------------------

  /** The write to the first idle worker fails: its process is gone. */
  predicate WriteFails(s: State) {
    !AllBusy(s.links) && !CanDispatch(s.links)
  }

  /** The step drops a call nobody cancelled: a command arrives while the slot is
      full and no worker is free, a request is written to a dead worker, or a tool
      thread's payload cannot be read. */
  predicate Loses(s: State, e: Event)
    requires Possible(s, e)
  {
    match e
    case WorkerMoves(_, _) => false
    case SendBuffered => s.buffered.Some? && WriteFails(s)
    case Line(line) =>
      line.message.CommandCall? && (WriteFails(s) || (AllBusy(s.links) && s.buffered.Some?))
    case WorkerReady(_) => false
    case ToolReady(i, readable) => !readable && !s.tools[i].cancelled
  }

  lemma {:induction false} NothingLost(lost: seq<Loss>)
    ensures lost == [] <==> forall c :: InLost(lost, c) == 0
  {
    if lost != [] {
      var x := lost[|lost| - 1];
      assert InLost(lost, x.call) > 0;
    }
  }

  lemma ConservedMeansNothingLost(s: State)
    requires Ledger(s)
    ensures Conserved(s) <==> s.lost == []
  {
    NothingLost(s.lost);
    if Conserved(s) {
      forall c ensures InLost(s.lost, c) == 0 {
        assert LedgerFor(s, c) && multiset(s.accepted)[c] == Places(s, c);
      }
    }
    if s.lost == [] {
      forall c ensures multiset(s.accepted)[c] == Places(s, c) {
        assert LedgerFor(s, c);
      }
    }
  }

  lemma StepConserves(s: State, e: Event)
    requires Inv(s) && Possible(s, e)
    ensures Conserved(Next(s, e)) <==> Conserved(s) && !Loses(s, e)
  {
    LoopStepKeepsInv(s, e);
    ConservedMeansNothingLost(s);
    ConservedMeansNothingLost(Next(s, e));
    LosingAddsToTheLedger(s, e);
  }

  lemma LosingAddsToTheLedger(s: State, e: Event)
    requires Possible(s, e)
    ensures Next(s, e).lost == [] <==> s.lost == [] && !Loses(s, e)
  {
  }

  /** A run conserves every accepted call exactly when no step of it is one of
      the three losing ones. */
  lemma {:induction false} RunConserves(states: seq<State>, events: seq<Event>, workers: nat, n: nat)
    requires IsLoopRun(states, events, workers) && n < |states|
    ensures Conserved(states[n]) <==> forall i | 0 <= i < n :: !Loses(states[i], events[i])
  {
    if n == 0 {
      InitialInv(workers);
      ConservedMeansNothingLost(states[0]);
    } else {
      RunConserves(states, events, workers, n - 1);
      LoopRunKeepsInv(states, events, workers, n - 1);
      StepConserves(states[n - 1], events[n - 1]);
    }
  }

  // A run with one worker.  Lines 1, 3 and 4 are commands, line 2 a tool call.
  const C0 := Call(0, NumberId(1))
  const C1 := Call(1, NumberId(2))
  const C2 := Call(2, NumberId(3))
  const C3 := Call(3, NumberId(4))
  const Working := Link(1, Busy(C0, false), [Request(1, C0)], [], Waiting)
  const Run1 := State([Working], None, [], 1, [], [C0], [], [], {})
  const Run2 := State([Working], None, [Tool(C1, false)], 2, [], [C0, C1], [], [], {})
  const Run3 := State([Working], Some(C2), [Tool(C1, false)], 2, [], [C0, C1, C2], [], [], {})
  const Run4 := State([Working], Some(C2), [], 1, [Answer(C1)], [C0, C1, C2], [], [], {})
  const Run5 := State([Working], Some(C3), [], 1, [Answer(C1)], [C0, C1, C2, C3], [], [Overwritten(C2)], {})

  function CommandLine(n: int): Event {
    Line(Incoming(CommandCall(NumberId(n)), true))
  }

  lemma FirstCommandOccupiesTheWorker()
    ensures Next(Initial(1), CommandLine(1)) == Run1
  {
    assert Initial(1).links == [Fresh];
    FirstIdleIs([Fresh], 0);
    assert Apply(Fresh, Dispatch(C0)) == Working;
    assert Dispatched([Fresh], C0) == [Working];
    assert [] + [C0] == [C0];
  }

  lemma WorkerIsBusy()
    ensures AllBusy([Working])
  {
    FirstIdleIs([Working], 1);
  }

  lemma ToolStartsAndSlotFills()
    ensures Next(Run1, Line(Incoming(ToolCall(NumberId(2)), true))) == Run2
    ensures Next(Run2, CommandLine(3)) == Run3
  {
    WorkerIsBusy();
    assert [] + [Tool(C1, false)] == [Tool(C1, false)];
  }

  lemma ToolEndsAndSlotStaysFull()
    ensures Next(Run3, ToolReady(0, true)) == Run4
    ensures Next(Run4, SendBuffered) == Run4
  {
    WorkerIsBusy();
    assert Run3.tools[..0] + Run3.tools[1..] == [];
    assert [] + [Answer(C1)] == [Answer(C1)];
  }

  lemma NextCommandOverwrites()
    ensures Next(Run4, CommandLine(4)) == Run5
    ensures C2 in Run5.accepted && Places(Run5, C2) == 0
  {
    WorkerIsBusy();
    assert [] + [Overwritten(C2)] == [Overwritten(C2)];
    assert Run5.accepted[2] == C2;
    assert [] + [Answer(C1)] == Run5.output;
    InAnswersAppend([], Answer(C1), C2);
    assert [Working][1..] == [];
    assert InSlots([Working], C2) == 0;
    assert InAnswers(Run5.output, C2) == 0;
    assert Outstanding(Run5, C2) == 0;
  }

  lemma ShortRun(states: seq<State>, events: seq<Event>)
    requires |states| == 7 && |events| == 6 && states[0] == Initial(1)
    requires Possible(states[0], events[0]) && states[1] == Next(states[0], events[0])
    requires Possible(states[1], events[1]) && states[2] == Next(states[1], events[1])
    requires Possible(states[2], events[2]) && states[3] == Next(states[2], events[2])
    requires Possible(states[3], events[3]) && states[4] == Next(states[3], events[3])
    requires Possible(states[4], events[4]) && states[5] == Next(states[4], events[4])
    requires Possible(states[5], events[5]) && states[6] == Next(states[5], events[5])
    ensures IsLoopRun(states, events, 1)
  {
    forall i | 0 <= i < |events|
      ensures Possible(states[i], events[i]) && states[i + 1] == Next(states[i], events[i])
    {
      assert i == 0 || i == 1 || i == 2 || i == 3 || i == 4 || i == 5;
    }
  }

  /** With the only worker busy and a second command in the slot, a tool
      completion wakes the loop, the next buffered line is a command, and the call
      in the slot is gone: not outstanding, not answered, not cancelled. */
  lemma SlotCanBeOverwritten() returns (states: seq<State>, events: seq<Event>)
    ensures IsLoopRun(states, events, 1)
    ensures |events| == 6 && events[5] == CommandLine(4)
    ensures C2 in states[6].accepted && Places(states[6], C2) == 0 && !Conserved(states[6])
  {
    states := [Initial(1), Run1, Run2, Run3, Run4, Run4, Run5];
    events := [CommandLine(1), Line(Incoming(ToolCall(NumberId(2)), true)), CommandLine(3),
               ToolReady(0, true), SendBuffered, CommandLine(4)];
    FirstCommandOccupiesTheWorker();
    ToolStartsAndSlotFills();
    ToolEndsAndSlotStaysFull();
    NextCommandOverwrites();
    ShortRun(states, events);
    assert multiset(Run5.accepted)[C2] > 0;
  }

  // ---- Reading lines with the slot empty or full ------------------------------

  /** The loop that handles buffered lines until one stops it. */
  function Drain(s: State, lines: seq<Incoming>): State
    decreases |lines|
  {
    if lines == [] then s
    else if Stops(s, lines[0]) then Handle(s, lines[0])
    else Drain(Handle(s, lines[0]), lines[1..])
  }

  function Unread(s: State, lines: seq<Incoming>): seq<Incoming>
    decreases |lines|
  {
    if lines == [] then []
    else if Stops(s, lines[0]) then lines[1..]
    else Unread(Handle(s, lines[0]), lines[1..])
  }

  function HandleAll(s: State, lines: seq<Incoming>): State
    decreases |lines|
  {
    if lines == [] then s else HandleAll(Handle(s, lines[0]), lines[1..])
  }

  /** Line `j` is a command that finds every worker busy. */
  ghost predicate StopsAt(s: State, lines: seq<Incoming>, j: nat)
    requires j < |lines|
  {
    lines[j].message.CommandCall? && forall l | l in HandleAll(s, lines[..j]).links :: l.slot.Busy?
  }

  lemma StopsMeans(s: State, line: Incoming)
    ensures Stops(s, line) <==> line.message.CommandCall? && forall l | l in s.links :: l.slot.Busy?
  {
    if !AllBusy(s.links) { assert s.links[FirstIdle(s.links)] in s.links; }
  }

  /** The loop handles the lines up to the one that stops it, each once and in
      order, and leaves exactly the others unread.  It stops only at a command that
      finds no free worker. */
  lemma {:induction false} DrainHandlesInOrder(s: State, lines: seq<Incoming>) returns (k: nat)
    ensures k <= |lines| && Unread(s, lines) == lines[k..] && Drain(s, lines) == HandleAll(s, lines[..k])
    ensures k < |lines| ==> k > 0 && StopsAt(s, lines, k - 1)
    ensures forall j | 0 <= j < k - 1 :: !StopsAt(s, lines, j)
    decreases |lines|
  {
    if lines == [] { return 0; }
    StopsMeans(s, lines[0]);
    if Stops(s, lines[0]) {
      k := 1;
      assert lines[..1][1..] == [] && lines[..0] == [];
    } else {
      var s', rest := Handle(s, lines[0]), lines[1..];
      k := DrainHandlesInOrder(s', rest);
      assert lines[..k + 1][1..] == rest[..k] && lines[..0] == [];
      forall j | 0 <= j < |rest| ensures StopsAt(s, lines, j + 1) == StopsAt(s', rest, j) {
        assert lines[..j + 1][1..] == rest[..j];
      }
      forall j | 0 <= j < k ensures !StopsAt(s, lines, j) {
        if j > 0 { assert StopsAt(s, lines, j - 1 + 1) == StopsAt(s', rest, j - 1); }
      }
      k := k + 1;
    }
  }

  // ---- What the client sent and what was accepted and replied -------------------------

  predicate IsCallLine(e: Event) {
    e.Line? && (e.line.message.ToolCall? || e.line.message.CommandCall?)
  }

  /** The ids of the calls among the lines of the first `n` events, in order. */
  function CalledIds(events: seq<Event>, n: nat): seq<JsonId>
    requires n <= |events|
  {
    if n == 0 then []
    else CalledIds(events, n - 1) + if IsCallLine(events[n - 1]) then [events[n - 1].line.message.id] else []
  }

  function Ids(calls: seq<Call>): seq<JsonId> {
    if calls == [] then [] else Ids(calls[..|calls| - 1]) + [calls[|calls| - 1].id]
  }

  /** What the loop writes of itself, without any call: replies to protocol requests
      and errors for lines it cannot parse. */
  function OwnOutput(output: seq<Output>): seq<Output> {
    if output == [] then []
    else
      var last := output[|output| - 1];
      OwnOutput(output[..|output| - 1]) + if last.Answer? then [] else [last]
  }

  function OwnReply(e: Event): seq<Output> {
    if !e.Line? then []
    else match e.line.message
         case Protocol(id) => [ProtocolReply(id)]
         case Malformed(id) => [ProtocolError(id)]
         case _ => []
  }

  function OwnReplies(events: seq<Event>, n: nat): seq<Output>
    requires n <= |events|
  {
    if n == 0 then [] else OwnReplies(events, n - 1) + OwnReply(events[n - 1])
  }

  lemma OneMoreId(calls: seq<Call>, c: Call)
    ensures Ids(calls + [c]) == Ids(calls) + [c.id]
  {
    assert (calls + [c])[..|calls|] == calls;
  }

  lemma OneMoreOutput(output: seq<Output>, o: Output)
    ensures OwnOutput(output + [o]) == OwnOutput(output) + if o.Answer? then [] else [o]
  {
    assert (output + [o])[..|output|] == output;
  }

  lemma StepAccepts(s: State, e: Event)
    requires Possible(s, e)
    ensures Ids(Next(s, e).accepted) == Ids(s.accepted) + if IsCallLine(e) then [e.line.message.id] else []
  {
    if IsCallLine(e) { OneMoreId(s.accepted, Call(|s.accepted|, e.line.message.id)); }
  }

  lemma StepReplies(s: State, e: Event)
    requires Possible(s, e)
    ensures OwnOutput(Next(s, e).output) == OwnOutput(s.output) + OwnReply(e)
  {
    var more := Next(s, e).output[|s.output|..];
    if |more| == 1 { OneMoreOutput(s.output, more[0]); }
  }

  /** In every run exactly the calls that were read have been accepted, in order. */
  lemma {:induction false} EveryCallIsAccepted(states: seq<State>, events: seq<Event>, workers: nat, n: nat)
    requires IsLoopRun(states, events, workers) && n < |states|
    ensures Ids(states[n].accepted) == CalledIds(events, n)
  {
    if n > 0 {
      EveryCallIsAccepted(states, events, workers, n - 1);
      StepAccepts(states[n - 1], events[n - 1]);
    }
  }

  /** And each protocol request and each malformed line has got exactly its own reply. */
  lemma {:induction false} EveryLineIsReplied(states: seq<State>, events: seq<Event>, workers: nat, n: nat)
    requires IsLoopRun(states, events, workers) && n < |states|
    ensures OwnOutput(states[n].output) == OwnReplies(events, n)
  {
    if n > 0 {
      EveryLineIsReplied(states, events, workers, n - 1);
      StepReplies(states[n - 1], events[n - 1]);
    }
  }

  /** Workers that are not running a command are alive. */
  ghost predicate IdleWorkersAlive(links: seq<Link>) {
    forall l | l in links && (l.slot.Idle? || l.fromWorker != []) :: !l.worker.Gone?
  }

  lemma AliveMeansWritesSucceed(s: State)
    requires IdleWorkersAlive(s.links)
    ensures !WriteFails(s)
  {
  }

  lemma HandleKeepsWorkersAlive(s: State, line: Incoming)
    requires IdleWorkersAlive(s.links)
    ensures IdleWorkersAlive(Handle(s, line).links)
  {
    var links' := Handle(s, line).links;
    forall l | l in links' && (l.slot.Idle? || l.fromWorker != []) ensures !l.worker.Gone? {
      var i :| 0 <= i < |links'| && links'[i] == l;
      assert s.links[i] in s.links;
    }
  }

  /** Entered with the slot empty, the reading loop loses nothing. */
  lemma {:induction false} DrainFromEmptySlotConserves(s: State, lines: seq<Incoming>)
    requires Inv(s) && IdleWorkersAlive(s.links) && s.buffered == None
    ensures Inv(Drain(s, lines))
    ensures Conserved(Drain(s, lines)) <==> Conserved(s)
    decreases |lines|
  {
    if lines != [] {
      LoopStepKeepsInv(s, Line(lines[0]));
      StepConserves(s, Line(lines[0]));
      AliveMeansWritesSucceed(s);
      HandleKeepsWorkersAlive(s, lines[0]);
      if !Stops(s, lines[0]) {
        DrainFromEmptySlotConserves(Handle(s, lines[0]), lines[1..]);
      }
    }
  }

  /** A command line comes before any cancellation of `id`. */
  predicate CommandBeforeCancelOf(lines: seq<Incoming>, id: JsonId) {
    lines != [] && match lines[0].message
                   case CommandCall(_) => true
                   case Cancelled(i) => i != id && CommandBeforeCancelOf(lines[1..], id)
                   case _ => CommandBeforeCancelOf(lines[1..], id)
  }

  lemma CancelKeepsBusy(links: seq<Link>, id: JsonId)
    requires AllBusy(links)
    ensures AllBusy(CancelledIn(links, id))
  {
    var links' := CancelledIn(links, id);
    FirstIdleIs(links', |links'|);
  }

  /** With no worker free and the slot empty nothing is written, so nothing is
      lost even if workers have died. */
  lemma {:induction false} DrainWhenAllBusyConserves(s: State, lines: seq<Incoming>)
    requires Inv(s) && AllBusy(s.links) && s.buffered == None
    ensures Conserved(Drain(s, lines)) <==> Conserved(s)
    decreases |lines|
  {
    if lines != [] {
      LoopStepKeepsInv(s, Line(lines[0]));
      StepConserves(s, Line(lines[0]));
      if !Stops(s, lines[0]) {
        if lines[0].message.Cancelled? { CancelKeepsBusy(s.links, lines[0].message.id); }
        DrainWhenAllBusyConserves(Handle(s, lines[0]), lines[1..]);
      }
    }
  }

  /** Entered with the slot full (so no worker is free), it loses the buffered
      call exactly when a command line precedes that call's cancellation. */
  lemma {:induction false} DrainFromFullSlotConserves(s: State, lines: seq<Incoming>)
    requires Inv(s) && AllBusy(s.links) && s.buffered.Some?
    ensures Conserved(Drain(s, lines)) <==>
            Conserved(s) && !CommandBeforeCancelOf(lines, s.buffered.value.id)
    decreases |lines|
  {
    if lines != [] {
      FullSlotStep(s, lines[0]);
      if !Stops(s, lines[0]) {
        var s' := Handle(s, lines[0]);
        if s'.buffered.Some? {
          DrainFromFullSlotConserves(s', lines[1..]);
        } else {
          DrainWhenAllBusyConserves(s', lines[1..]);
        }
      }
    }
  }

  lemma FullSlotStep(s: State, line: Incoming)
    requires Inv(s) && AllBusy(s.links) && s.buffered.Some?
    ensures var s', id := Handle(s, line), s.buffered.value.id;
            && Inv(s') && (Stops(s, line) <==> line.message.CommandCall?)
            && (Conserved(s') <==> Conserved(s) && !line.message.CommandCall?)
            && (!Stops(s, line) ==> AllBusy(s'.links))
            && (!Stops(s, line) ==>
                  s'.buffered == if line.message == Cancelled(id) then None else s.buffered)
  {
    LoopStepKeepsInv(s, Line(line));
    StepConserves(s, Line(line));
    if line.message.Cancelled? { CancelKeepsBusy(s.links, line.message.id); }
  }

  /** A worker dies that owes nothing: idle, or its reply already written. */
  predicate KillsIdleWorker(s: State, e: Event)
    requires Possible(s, e)
  {
    && e.WorkerMoves? && e.step.Crash?
    && (s.links[e.i].slot.Idle? || s.links[e.i].fromWorker != [])
  }

  lemma AliveStep(s: State, e: Event)
    requires PoolInv(s.links) && IdleWorkersAlive(s.links)
    requires Possible(s, e) && !KillsIdleWorker(s, e)
    ensures IdleWorkersAlive(Next(s, e).links)
  {
    match e
    case WorkerMoves(i, step) => assert s.links[i] in s.links && LinkInv(s.links[i]);
    case SendBuffered =>
    case Line(line) => HandleKeepsWorkersAlive(s, line);
    case WorkerReady(i) => assert s.links[i] in s.links && LinkInv(s.links[i]);
    case ToolReady(_, _) =>
  }

  /** Workers that die only before they have replied never make a write fail. */
  lemma {:induction false} WritesSucceedWhileIdleWorkersSurvive(
      states: seq<State>, events: seq<Event>, workers: nat, i: nat)
    requires IsLoopRun(states, events, workers) && i < |states|
    requires forall j | 0 <= j < i :: !KillsIdleWorker(states[j], events[j])
    ensures IdleWorkersAlive(states[i].links) && !WriteFails(states[i])
  {
    if i > 0 {
      WritesSucceedWhileIdleWorkersSurvive(states, events, workers, i - 1);
      LoopRunKeepsInv(states, events, workers, i - 1);
      AliveStep(states[i - 1], events[i - 1]);
    }
    AliveMeansWritesSucceed(states[i]);
  }

  // ---- A worker that died idle -----------------------------------------------------

  /** Only busy slots are polled, so nobody notices that this worker is gone. */
  predicate DiedIdle(l: Link) {
    l.slot.Idle? && l.worker.Gone?
  }

  lemma DiedIdleStep(s: State, e: Event, k: nat, m: nat)
    requires Possible(s, e) && k < |s.links| && DiedIdle(s.links[k])
    ensures |Next(s, e).links| == |s.links| && Next(s, e).links[k] == s.links[k]
    ensures k <= m < |s.links| ==> Next(s, e).links[m].epoch == s.links[m].epoch
  {
    match e
    case WorkerMoves(i, step) =>
    case SendBuffered =>
    case Line(line) => LineSparesDead(s, line, k, m);
    case WorkerReady(i) =>
    case ToolReady(_, _) =>
  }

  lemma LineSparesDead(s: State, line: Incoming, k: nat, m: nat)
    requires k < |s.links| && DiedIdle(s.links[k])
    ensures |Handle(s, line).links| == |s.links| && Handle(s, line).links[k] == s.links[k]
    ensures k <= m < |s.links| ==> Handle(s, line).links[m].epoch == s.links[m].epoch
  {
  }

  /** Slot `k` is still dead, and slot `m`, if not before it, was sent nothing since. */
  ghost predicate StillDead(s0: State, s: State, k: nat, m: nat) {
    && |s.links| == |s0.links| && k < |s.links| && DiedIdle(s.links[k])
    && (k <= m < |s.links| ==> s.links[m].epoch == s0.links[m].epoch)
  }

  /** A worker that dies idle is never replaced, and from then on no request is sent
      to its slot or to any slot behind it. */
  lemma DiedIdleStays(states: seq<State>, events: seq<Event>, workers: nat, i: nat, j: nat, k: nat, m: nat)
    requires IsLoopRun(states, events, workers) && i <= j < |states|
    requires k < |states[i].links| && DiedIdle(states[i].links[k])
    ensures |states[j].links| == |states[i].links| && DiedIdle(states[j].links[k])
    ensures k <= m < |states[i].links| ==> states[j].links[m].epoch == states[i].links[m].epoch
  {
    forall n | 0 <= n < |events| ensures StepAt(states, events, n) {}
    StillDeadLater(states, events, i, j, k, m);
  }

  ghost predicate StepAt(states: seq<State>, events: seq<Event>, n: nat)
    requires n < |events| == |states| - 1
  {
    Possible(states[n], events[n]) && states[n + 1] == Next(states[n], events[n])
  }

  lemma {:induction false} StillDeadLater(
      states: seq<State>, events: seq<Event>, i: nat, j: nat, k: nat, m: nat)
    requires |events| == |states| - 1 && forall n | 0 <= n < |events| :: StepAt(states, events, n)
    requires i <= j < |states| && k < |states[i].links| && DiedIdle(states[i].links[k])
    ensures StillDead(states[i], states[j], k, m)
    decreases j
  {
    if i < j {
      StillDeadLater(states, events, i, j - 1, k, m);
      assert StepAt(states, events, j - 1);
      StillDeadNext(states[i], states[j - 1], events[j - 1], states[j], k, m);
    }
  }

  lemma StillDeadNext(s0: State, s: State, e: Event, s': State, k: nat, m: nat)
    requires StillDead(s0, s, k, m) && Possible(s, e) && s' == Next(s, e)
    ensures StillDead(s0, s', k, m)
  {
    DiedIdleStep(s, e, k, m);
  }

  /** A dead worker can be replaced exactly while its slot is busy and it has left
      no reply: collecting a reply frees the slot and leaves the process dead. */
  lemma ReplacedIff(s: State, k: nat)
    requires k < |s.links| && s.links[k].worker.Gone?
    ensures (exists e :: Possible(s, e) && !Next(s, e).links[k].worker.Gone?)
            <==> s.links[k].slot.Busy? && s.links[k].fromWorker == []
  {
    if s.links[k].slot.Busy? && s.links[k].fromWorker == [] {
      assert Possible(s, WorkerReady(k)) && !Next(s, WorkerReady(k)).links[k].worker.Gone?;
    } else {
      forall e | Possible(s, e) ensures Next(s, e).links[k].worker.Gone? { StaysDead(s, e, k); }
    }
  }

  lemma StaysDead(s: State, e: Event, k: nat)
    requires Possible(s, e) && k < |s.links| && s.links[k].worker.Gone?
    requires s.links[k].slot.Idle? || s.links[k].fromWorker != []
    ensures |Next(s, e).links| == |s.links| && Next(s, e).links[k].worker.Gone?
  {
  }

  /** The only worker dies idle, and the next command is lost. */
  lemma IdleDeathLosesACommand() returns (states: seq<State>, events: seq<Event>)
    ensures IsLoopRun(states, events, 1) && events == [WorkerMoves(0, Crash), CommandLine(1)]
    ensures states[2].accepted == [C0] && states[2].lost == [Unsent(C0)]
  {
    var dead := Fresh.(worker := Gone);
    var run1 := Initial(1).(links := [dead]);
    var run2 := run1.(accepted := [C0], inFlight := 1, lost := [Unsent(C0)]);
    states, events := [Initial(1), run1, run2], [WorkerMoves(0, Crash), CommandLine(1)];
    assert Initial(1).links == [Fresh] && [Fresh][0 := dead] == [dead];
    FirstIdleIs([dead], 0);
    assert [] + [C0] == [C0] && [] + [Unsent(C0)] == [Unsent(C0)];
    forall i | 0 <= i < |events|
      ensures Possible(states[i], events[i]) && states[i + 1] == Next(states[i], events[i])
    {
      assert i == 0 || i == 1;
    }
  }

  /** When that was the first worker, every later command is lost. */
  lemma DeadFirstWorkerLosesEverything(
      states: seq<State>, events: seq<Event>, workers: nat, i: nat, j: nat)
    requires IsLoopRun(states, events, workers) && i <= j < |events|
    requires |states[i].links| > 0 && DiedIdle(states[i].links[0])
    ensures WriteFails(states[j])
    ensures events[j].Line? && events[j].line.message.CommandCall? ==>
              var call := Call(|states[j].accepted|, events[j].line.message.id);
              && states[j + 1].accepted == states[j].accepted + [call]
              && states[j + 1].lost == states[j].lost + [Unsent(call)]
  {
    DiedIdleStays(states, events, workers, i, j, 0, 0);
    FirstIdleIs(states[j].links, 0);
  }

  // ---- Leaving the loop ---------------------------------------------------------

  lemma {:induction false} NoBusySlots(links: seq<Link>, c: Call)
    requires IdleSlots(links) == |links|
    ensures InSlots(links, c) == 0
  {
    if links != [] {
      AtMostAllIdle(links[1..]);
      NoBusySlots(links[1..], c);
    }
  }

  lemma {:induction false} AtMostAllIdle(links: seq<Link>)
    ensures IdleSlots(links) <= |links|
  {
    if links != [] { AtMostAllIdle(links[1..]); }
  }

  /** At end of input the loop stops only when its counter is zero and the slot
      is empty; then no call is waiting anywhere. */
  lemma EofExitLeavesNothingOutstanding(s: State, c: Call)
    requires Inv(s) && s.inFlight == 0 && s.buffered == None
    ensures Outstanding(s, c) == 0
    ensures s.lost == [] ==> multiset(s.accepted)[c] == InAnswers(s.output, c) + multiset(s.silenced)[c]
  {
    AtMostAllIdle(s.links);
    NoBusySlots(s.links, c);
    assert LedgerFor(s, c);
  }

  /** At the poll: a full slot means that no worker is free. */
  lemma {:induction false} FullSlotMeansAllBusy(s: State, lines: seq<Incoming>)
    requires s.buffered.Some? ==> AllBusy(s.links)
    ensures Drain(s, lines).buffered.Some? ==> AllBusy(Drain(s, lines).links)
    decreases |lines|
  {
    if lines != [] && !Stops(s, lines[0]) {
      var line := lines[0];
      if line.message.Cancelled? && AllBusy(s.links) { CancelKeepsBusy(s.links, line.message.id); }
      FullSlotMeansAllBusy(Handle(s, line), lines[1..]);
    }
  }

  /** The loop never runs out of descriptors to wait on while a call still waits
      for something: with no busy worker and no tool thread nothing is outstanding,
      and the counter holds only the calls that were written to dead workers. */
  lemma NothingToPollMeansDone(s: State, eof: bool)
    requires Inv(s) && |s.links| > 0
    requires s.buffered.Some? ==> AllBusy(s.links)
    requires (eof || s.buffered.Some?) && BusyFrom(s.links, 0) == [] && s.tools == []
    ensures eof && s.buffered == None && s.inFlight == UnsentCount(s.lost)
    ensures forall c :: Outstanding(s, c) == 0
  {
    AllIdle(s.links);
    if s.buffered.Some? {
      IdleSlotsZero(s.links);
    }
    forall c ensures InSlots(s.links, c) == 0 { NoBusySlots(s.links, c); }
  }

  lemma AllIdle(links: seq<Link>)
    requires BusyFrom(links, 0) == []
    ensures IdleSlots(links) == |links|
  {
    AtMostAllIdle(links);
    if IdleSlots(links) != |links| {
      var i := SomeBusy(links);
      assert false;
    }
  }

  lemma {:induction false} SomeBusy(links: seq<Link>) returns (i: nat)
    requires IdleSlots(links) < |links|
    ensures i < |links| && links[i].slot.Busy?
  {
    if links[0].slot.Busy? { i := 0; } else { i := SomeBusy(links[1..]); i := i + 1; }
  }

  // ---- Answers and cancellations -------------------------------------------------

  /** No call is answered twice, and only accepted calls are answered. */
  lemma AnsweredAtMostOnce(states: seq<State>, events: seq<Event>, workers: nat, i: nat, c: Call)
    requires IsLoopRun(states, events, workers) && i < |states|
    ensures InAnswers(states[i].output, c) <= 1
    ensures InAnswers(states[i].output, c) == 1 ==>
              c in states[i].accepted && Outstanding(states[i], c) == 0 && c !in states[i].silenced
  {
    LoopRunKeepsInv(states, events, workers, i);
    assert LedgerFor(states[i], c);
    AcceptedOnce(states[i], c);
  }

  lemma {:induction false} NoneHeld(links: seq<Link>, c: Call)
    requires forall i | 0 <= i < |links| :: !Holds(links[i], c.id)
    ensures InSlots(links, c) == 0
  {
    if links != [] {
      assert !Holds(links[0], c.id);
      NoneHeld(links[1..], c);
    }
  }

  /** A cancellation of this id acts on an earlier place: on another call in the
      slot, or on the first worker whose call has the id while `c` is not there. */
  predicate Shadowed(s: State, c: Call) {
    if s.buffered.Some? && s.buffered.value.id == c.id then s.buffered.value != c
    else
      var k := FirstHolding(s.links, c.id);
      k < |s.links| && s.links[k].slot.call != c
  }

  /** A cancellation reaches an outstanding call exactly when no other call with
      the same id stands in an earlier place; clients may reuse ids. */
  lemma CancelReachesIff(s: State, c: Call)
    requires Inv(s) && Outstanding(s, c) > 0 && c !in s.reached
    ensures c in CancelInFlight(s, c.id).reached <==> !Shadowed(s, c)
  {
    var k := FirstHolding(s.links, c.id);
    if !(s.buffered.Some? && s.buffered.value.id == c.id) && k == |s.links| {
      NoneHeld(s.links, c);
      InToolsWhere(s.tools, c);
    }
  }

  /** Two commands with id 1, the first at the only worker and the second in the
      slot: the cancellation takes the second, and the first runs on. */
  lemma FirstOfTwoIsMissed() returns (states: seq<State>, events: seq<Event>)
    ensures IsLoopRun(states, events, 1)
    ensures events == [CommandLine(1), CommandLine(1), Line(Incoming(Cancelled(NumberId(1)), true))]
    ensures Outstanding(states[2], C0) > 0 && Outstanding(states[3], C0) > 0 && C0 !in states[3].reached
  {
    var again := Call(1, NumberId(1));
    var run2 := Run1.(buffered := Some(again), accepted := [C0, again]);
    var run3 := run2.(buffered := None, silenced := [again], reached := {again});
    states := [Initial(1), Run1, run2, run3];
    events := [CommandLine(1), CommandLine(1), Line(Incoming(Cancelled(NumberId(1)), true))];
    FirstCommandOccupiesTheWorker();
    SecondIsTaken(run2, run3, again);
    InSlotsAt([Working], 0);
    forall i | 0 <= i < |events|
      ensures Possible(states[i], events[i]) && states[i + 1] == Next(states[i], events[i])
    {
      assert i == 0 || i == 1 || i == 2;
    }
  }

  lemma SecondIsTaken(run2: State, run3: State, again: Call)
    requires again == Call(1, NumberId(1)) && run2 == Run1.(buffered := Some(again), accepted := [C0, again])
    requires run3 == run2.(buffered := None, silenced := [again], reached := {again})
    ensures Next(Run1, CommandLine(1)) == run2
    ensures Next(run2, Line(Incoming(Cancelled(NumberId(1)), true))) == run3
  {
    WorkerIsBusy();
    assert [C0] + [again] == [C0, again] && [] + [again] == [again];
    assert {} + {again} == {again};
  }

  /** In particular one whose id names one outstanding call reaches that call. */
  lemma CancelReachesItsCall(s: State, id: JsonId, c: Call)
    requires Inv(s) && Outstanding(s, c) > 0 && c.id == id
    requires forall d | Outstanding(s, d) > 0 && d.id == id :: d == c
    ensures c in CancelInFlight(s, id).reached
  {
    var k := FirstHolding(s.links, id);
    if c !in s.reached {
      CancelReachesIff(s, c);
      if s.buffered.Some? && s.buffered.value.id == id {
        assert Outstanding(s, s.buffered.value) > 0;
      } else if k < |s.links| {
        InSlotsAt(s.links, k);
        assert Outstanding(s, s.links[k].slot.call) > 0;
      }
    }
  }

  /** Once reached, a call is never answered, whatever happens afterwards. */
  lemma {:induction false} ReachedIsNeverAnswered(
      states: seq<State>, events: seq<Event>, workers: nat, i: nat, j: nat, c: Call)
    requires IsLoopRun(states, events, workers) && i <= j < |states| && c in states[i].reached
    ensures c in states[j].reached && InAnswers(states[j].output, c) == 0
    decreases j
  {
    LoopRunKeepsInv(states, events, workers, j);
    if i < j {
      ReachedIsNeverAnswered(states, events, workers, i, j - 1, c);
    }
    assert ReachedIsQuiet(states[j], c);
  }

  /** The client sent a cancellation with this call's id while it was outstanding. */
  ghost predicate WasCancelled(states: seq<State>, events: seq<Event>, workers: nat, i: nat, c: Call)
    requires IsLoopRun(states, events, workers) && i < |states|
  {
    exists j, starts ::
      0 <= j < i && events[j] == Line(Incoming(Cancelled(c.id), starts)) && Outstanding(states[j], c) > 0
  }

  lemma {:induction false} ReachedWasCancelled(states: seq<State>, events: seq<Event>, workers: nat, i: nat, c: Call)
    requires IsLoopRun(states, events, workers) && i < |states| && c in states[i].reached
    ensures WasCancelled(states, events, workers, i, c)
  {
    if i > 0 {
      var s, e := states[i - 1], events[i - 1];
      if c in s.reached {
        ReachedWasCancelled(states, events, workers, i - 1, c);
        var j, starts :|
          0 <= j < i - 1 && events[j] == Line(Incoming(Cancelled(c.id), starts)) && Outstanding(states[j], c) > 0;
        assert 0 <= j < i;
      } else {
        var starts := e.line.threadStarts;
        NewlyReachedIsOutstanding(s, e.line.message.id, c);
        assert events[i - 1] == Line(Incoming(Cancelled(c.id), starts)) && Outstanding(states[i - 1], c) > 0;
      }
    }
  }

  lemma NewlyReachedIsOutstanding(s: State, id: JsonId, c: Call)
    requires c in CancelInFlight(s, id).reached && c !in s.reached
    ensures c.id == id && Outstanding(s, c) > 0
  {
    var k := FirstHolding(s.links, id);
    if s.buffered.Some? && s.buffered.value.id == id {
    } else if k < |s.links| {
      InSlotsAt(s.links, k);
    } else {
      var t :| t in s.tools && t.call.id == id && t.call == c;
      var i :| 0 <= i < |s.tools| && s.tools[i] == t;
      InToolsAt(s.tools, i);
    }
  }

  /** Silence is never arbitrary: a call leaves without an answer only because
      the client cancelled it while it was outstanding. */
  lemma SilencedOnlyIfCancelled(states: seq<State>, events: seq<Event>, workers: nat, i: nat, c: Call)
    requires IsLoopRun(states, events, workers) && i < |states| && c in states[i].silenced
    ensures WasCancelled(states, events, workers, i, c)
  {
    LoopRunKeepsInv(states, events, workers, i);
    ReachedWasCancelled(states, events, workers, i, c);
  }
}
