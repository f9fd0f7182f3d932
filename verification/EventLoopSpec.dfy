/** The event loop as a state machine: what each step does to the buffered slot,
    the workers, the pending tool threads and the output, and what happens to
    every accepted call over a whole run. */
module EventLoopSpec {
  import opened Requests
  import opened WorkerChannel
  import opened WorkerPool

  /** One input line after parsing. */
  datatype Message =
    | Blank
    | Malformed(id: JsonId)
    | Notification
    | Cancelled(id: JsonId)
    | Protocol(id: JsonId)
    | ToolCall(id: JsonId)
    | CommandCall(id: JsonId)

  /** A line, and whether a tool thread could be started for it. */
  datatype Incoming = Incoming(message: Message, threadStarts: bool)

  datatype Tool = Tool(call: Call, cancelled: bool)

  datatype Output = Answer(call: Call) | ProtocolReply(id: JsonId) | ProtocolError(id: JsonId)

  /** A call dropped without an answer and without a cancellation. */
  datatype Loss = Overwritten(call: Call) | Unsent(call: Call) | Unreadable(call: Call)

  /** `accepted`, `silenced`, `lost` and `reached` are the history of the run:
      calls in arrival order, calls dropped because they were cancelled, calls
      dropped for another reason, and calls a cancellation reached. */
  datatype State = State(links: seq<Link>, buffered: Option<Call>, tools: seq<Tool>,
                         inFlight: int, output: seq<Output>,
                         accepted: seq<Call>, silenced: seq<Call>,
                         lost: seq<Loss>, reached: set<Call>)

  function Initial(workers: nat): State {
    State(seq(workers, i => Fresh), None, [], 0, [], [], [], [], {})
  }

  // ---- Steps of the loop ----------------------------------------------------

  function DispatchBuffered(s: State): State {
    if s.buffered.Some? && !AllBusy(s.links)
    then s.(links := Dispatched(s.links, s.buffered.value),
            buffered := None,
            inFlight := s.inFlight + 1,
            lost := s.lost + (if CanDispatch(s.links) then [] else [Unsent(s.buffered.value)]))
    else s
  }

  function Flagged(tools: seq<Tool>, id: JsonId): seq<Tool> {
    seq(|tools|, i requires 0 <= i < |tools| =>
      if tools[i].call.id == id then tools[i].(cancelled := true) else tools[i])
  }

  function CancelInFlight(s: State, id: JsonId): State {
    var k := FirstHolding(s.links, id);
    if s.buffered.Some? && s.buffered.value.id == id then
      s.(buffered := None,
         silenced := s.silenced + [s.buffered.value],
         reached := s.reached + {s.buffered.value})
    else if k < |s.links| then
      s.(links := CancelledIn(s.links, id), reached := s.reached + {s.links[k].slot.call})
    else
      s.(tools := Flagged(s.tools, id),
         reached := s.reached + set t | t in s.tools && t.call.id == id :: t.call)
  }

  function AcceptTool(s: State, call: Call, threadStarts: bool): State {
    if threadStarts
    then s.(accepted := s.accepted + [call],
            tools := s.tools + [Tool(call, false)],
            inFlight := s.inFlight + 1)
    else s.(accepted := s.accepted + [call], output := s.output + [Answer(call)])
  }

  function AcceptCommand(s: State, call: Call): State {
    if AllBusy(s.links)
    then s.(accepted := s.accepted + [call],
            buffered := Some(call),
            lost := s.lost + (if s.buffered.Some? then [Overwritten(s.buffered.value)] else []))
    else s.(accepted := s.accepted + [call],
            links := Dispatched(s.links, call),
            inFlight := s.inFlight + 1,
            lost := s.lost + (if CanDispatch(s.links) then [] else [Unsent(call)]))
  }

  function Handle(s: State, line: Incoming): State {
    match line.message
    case Blank => s
    case Notification => s
    case Malformed(id) => s.(output := s.output + [ProtocolError(id)])
    case Protocol(id) => s.(output := s.output + [ProtocolReply(id)])
    case Cancelled(id) => CancelInFlight(s, id)
    case ToolCall(id) => AcceptTool(s, Call(|s.accepted|, id), line.threadStarts)
    case CommandCall(id) => AcceptCommand(s, Call(|s.accepted|, id))
  }

  /** Reading stops at a command that finds no free worker. */
  predicate Stops(s: State, line: Incoming) {
    line.message.CommandCall? && AllBusy(s.links)
  }

  function CollectWorker(s: State, i: nat): State
    requires i < |s.links| && Enabled(s.links[i], Collect)
  {
    var v := VerdictOf(s.links[i]);
    s.(links := s.links[i := Apply(s.links[i], Collect)],
       inFlight := s.inFlight - 1,
       output := if v.suppressed then s.output else s.output + [Answer(v.call)],
       silenced := if v.suppressed then s.silenced + [v.call] else s.silenced)
  }

  function CollectTool(s: State, i: nat, readable: bool): State
    requires i < |s.tools|
  {
    var t := s.tools[i];
    s.(tools := s.tools[..i] + s.tools[i + 1..],
       inFlight := s.inFlight - 1,
       output := if readable && !t.cancelled then s.output + [Answer(t.call)] else s.output,
       silenced := if t.cancelled then s.silenced + [t.call] else s.silenced,
       lost := if readable || t.cancelled then s.lost else s.lost + [Unreadable(t.call)])
  }

  datatype Event =
    | WorkerMoves(i: nat, step: Step)
    | SendBuffered
    | Line(line: Incoming)
    | WorkerReady(i: nat)
    | ToolReady(i: nat, readable: bool)

  predicate Possible(s: State, e: Event) {
    match e
    case WorkerMoves(i, step) =>
      && i < |s.links| && Enabled(s.links[i], step)
      && (step.Receive? || step.Finish? || step.NoticeActivity? || step.Crash?)
    case SendBuffered => true
    case Line(_) => true
    case WorkerReady(i) => i < |s.links| && Enabled(s.links[i], Collect)
    case ToolReady(i, _) => i < |s.tools|
  }

  function Next(s: State, e: Event): State
    requires Possible(s, e)
  {
    match e
    case WorkerMoves(i, step) => s.(links := s.links[i := Apply(s.links[i], step)])
    case SendBuffered => DispatchBuffered(s)
    case Line(line) => Handle(s, line)
    case WorkerReady(i) => CollectWorker(s, i)
    case ToolReady(i, readable) => CollectTool(s, i, readable)
  }

  // ---- Where calls are ------------------------------------------------------

  function One(b: bool): nat {
    if b then 1 else 0
  }

  predicate IsIn(l: Link, c: Call) {
    l.slot.Busy? && l.slot.call == c
  }

  /** How many slots hold `c`. */
  ghost function InSlots(links: seq<Link>, c: Call): nat {
    if links == [] then 0 else One(IsIn(links[0], c)) + InSlots(links[1..], c)
  }

  ghost function InTools(tools: seq<Tool>, c: Call): nat {
    if tools == [] then 0 else One(tools[0].call == c) + InTools(tools[1..], c)
  }

  ghost function InAnswers(output: seq<Output>, c: Call): nat {
    if output == [] then 0
    else InAnswers(output[..|output| - 1], c) + One(output[|output| - 1] == Answer(c))
  }

  ghost function InLost(lost: seq<Loss>, c: Call): nat {
    if lost == [] then 0 else InLost(lost[..|lost| - 1], c) + One(lost[|lost| - 1].call == c)
  }

  ghost function UnsentCount(lost: seq<Loss>): nat {
    if lost == [] then 0 else UnsentCount(lost[..|lost| - 1]) + One(lost[|lost| - 1].Unsent?)
  }

  /** How often `c` waits in the buffered slot, a worker slot or a tool thread. */
  ghost function Outstanding(s: State, c: Call): nat {
    One(s.buffered == Some(c)) + InSlots(s.links, c) + InTools(s.tools, c)
  }

  /** How often `c` is outstanding, answered or silently cancelled. */
  ghost function Places(s: State, c: Call): nat {
    Outstanding(s, c) + InAnswers(s.output, c) + multiset(s.silenced)[c]
  }

  /** Every accepted call is in exactly one of these places, and no other call is. */
  ghost predicate Conserved(s: State) {
    forall c :: multiset(s.accepted)[c] == Places(s, c)
  }

  // ---- The inductive invariant ---------------------------------------------

  ghost predicate LedgerFor(s: State, c: Call) {
    multiset(s.accepted)[c] == Places(s, c) + InLost(s.lost, c)
  }

  ghost predicate Ledger(s: State) {
    forall c :: LedgerFor(s, c)
  }

  ghost predicate Numbered(s: State) {
    forall i | 0 <= i < |s.accepted| :: s.accepted[i].serial == i
  }

  ghost predicate CountsMatch(s: State) {
    s.inFlight == |s.links| - IdleSlots(s.links) + |s.tools| + UnsentCount(s.lost)
  }

  ghost predicate ReachedIsQuiet(s: State, c: Call) {
    c in s.accepted && InAnswers(s.output, c) == 0 && InLost(s.lost, c) == 0
  }

  ghost predicate FlagsMatch(s: State) {
    && (forall l | l in s.links && l.slot.Busy? :: l.slot.cancelled <==> l.slot.call in s.reached)
    && (forall t | t in s.tools :: t.cancelled <==> t.call in s.reached)
    && (s.buffered.Some? ==> s.buffered.value !in s.reached)
    && (forall c | c in s.silenced :: c in s.reached)
    && (forall c | c in s.reached :: ReachedIsQuiet(s, c))
  }

  ghost predicate Inv(s: State) {
    PoolInv(s.links) && Ledger(s) && Numbered(s) && CountsMatch(s) && FlagsMatch(s)
  }

  // ---- Counting lemmas ------------------------------------------------------

  lemma {:induction false} InSlotsUpdate(links: seq<Link>, i: nat, l: Link, c: Call)
    requires i < |links|
    ensures InSlots(links[i := l], c) + One(IsIn(links[i], c)) == InSlots(links, c) + One(IsIn(l, c))
  {
    if i > 0 {
      InSlotsUpdate(links[1..], i - 1, l, c);
      assert links[i := l][1..] == links[1..][i - 1 := l];
    } else {
      assert links[i := l][1..] == links[1..];
    }
  }

  lemma {:induction false} IdleSlotsUpdate(links: seq<Link>, i: nat, l: Link)
    requires i < |links|
    ensures IdleSlots(links[i := l]) + One(links[i].slot.Idle?) == IdleSlots(links) + One(l.slot.Idle?)
  {
    if i > 0 {
      IdleSlotsUpdate(links[1..], i - 1, l);
      assert links[i := l][1..] == links[1..][i - 1 := l];
    } else {
      assert links[i := l][1..] == links[1..];
    }
  }

  lemma {:induction false} InSlotsAt(links: seq<Link>, i: nat)
    requires i < |links| && links[i].slot.Busy?
    ensures InSlots(links, links[i].slot.call) >= 1
  {
    if i > 0 { InSlotsAt(links[1..], i - 1); }
  }

  lemma {:induction false} InSlotsTwice(links: seq<Link>, i: nat, j: nat)
    requires i < j < |links| && links[i].slot.Busy? && IsIn(links[j], links[i].slot.call)
    ensures InSlots(links, links[i].slot.call) >= 2
  {
    if i > 0 { InSlotsTwice(links[1..], i - 1, j - 1); } else { InSlotsAt(links[1..], j - 1); }
  }

  lemma {:induction false} InToolsAppend(a: seq<Tool>, b: seq<Tool>, c: Call)
    ensures InTools(a + b, c) == InTools(a, c) + InTools(b, c)
  {
    if a == [] {
      assert a + b == b;
    } else {
      InToolsAppend(a[1..], b, c);
      assert (a + b)[1..] == a[1..] + b;
    }
  }

  lemma InToolsRemove(tools: seq<Tool>, i: nat, c: Call)
    requires i < |tools|
    ensures InTools(tools, c) == InTools(tools[..i] + tools[i + 1..], c) + One(tools[i].call == c)
  {
    assert tools == tools[..i] + tools[i..];
    InToolsAppend(tools[..i], tools[i..], c);
    InToolsAppend(tools[..i], tools[i + 1..], c);
  }

  lemma {:induction false} InToolsAt(tools: seq<Tool>, i: nat)
    requires i < |tools|
    ensures InTools(tools, tools[i].call) >= 1
  {
    if i > 0 { InToolsAt(tools[1..], i - 1); }
  }

  lemma {:induction false} InToolsWhere(tools: seq<Tool>, c: Call)
    requires InTools(tools, c) > 0
    ensures exists t :: t in tools && t.call == c
  {
    if tools[0].call == c { assert tools[0] in tools; } else { InToolsWhere(tools[1..], c); }
  }

  lemma {:induction false} FlaggedKeepsCalls(tools: seq<Tool>, id: JsonId, c: Call)
    ensures InTools(Flagged(tools, id), c) == InTools(tools, c)
  {
    if tools != [] {
      FlaggedKeepsCalls(tools[1..], id, c);
      assert Flagged(tools, id)[1..] == Flagged(tools[1..], id);
    }
  }

  lemma InAnswersAppend(output: seq<Output>, o: Output, c: Call)
    ensures InAnswers(output + [o], c) == InAnswers(output, c) + One(o == Answer(c))
  {
    assert (output + [o])[..|output|] == output;
  }

  lemma InLostAppend(lost: seq<Loss>, x: Loss, c: Call)
    ensures InLost(lost + [x], c) == InLost(lost, c) + One(x.call == c)
    ensures UnsentCount(lost + [x]) == UnsentCount(lost) + One(x.Unsent?)
  {
    assert (lost + [x])[..|lost|] == lost;
  }

  lemma InSlotsDispatched(links: seq<Link>, call: Call, c: Call)
    requires CanDispatch(links)
    ensures InSlots(Dispatched(links, call), c) == InSlots(links, c) + One(call == c)
    ensures IdleSlots(Dispatched(links, call)) == IdleSlots(links) - 1
  {
    var k := FirstIdle(links);
    InSlotsUpdate(links, k, Apply(links[k], Dispatch(call)), c);
    IdleSlotsUpdate(links, k, Apply(links[k], Dispatch(call)));
  }

  /** An arrival number names one accepted call. */
  lemma AcceptedOnce(s: State, c: Call)
    requires Numbered(s)
    ensures multiset(s.accepted)[c] <= 1
    ensures c.serial >= |s.accepted| ==> multiset(s.accepted)[c] == 0
  {
    if c in s.accepted {
      var i :| 0 <= i < |s.accepted| && s.accepted[i] == c;
      assert s.accepted == s.accepted[..i] + [c] + s.accepted[i + 1..];
      assert c !in s.accepted[..i] && c !in s.accepted[i + 1..];
    }
  }
}
