/** What every run of the event loop keeps, and exactly when it loses a call. */
module EventLoopRuns {
  import opened Requests
  import opened WorkerChannel
  import opened WorkerPool
  import opened EventLoopSpec

  lemma InitialInv(workers: nat)
    ensures Inv(Initial(workers))
  {
    var links := Initial(workers).links;
    forall c ensures LedgerFor(Initial(workers), c) { AllFresh(links, c); }
    AllFresh(links, Call(0, NullId));
  }

  lemma {:induction false} AllFresh(links: seq<Link>, c: Call)
    requires forall i | 0 <= i < |links| :: links[i] == Fresh
    ensures InSlots(links, c) == 0 && IdleSlots(links) == |links|
  {
    if links != [] { AllFresh(links[1..], c); }
  }

  // ---- Where an outstanding call is not --------------------------------------

  lemma HeldBySlotOnly(s: State, i: nat)
    requires Ledger(s) && Numbered(s) && i < |s.links| && s.links[i].slot.Busy?
    ensures var c := s.links[i].slot.call;
            && c in s.accepted && InAnswers(s.output, c) == 0 && InLost(s.lost, c) == 0
            && c !in s.silenced && s.buffered != Some(c) && InTools(s.tools, c) == 0
            && forall j | 0 <= j < |s.links| && j != i :: !IsIn(s.links[j], c)
  {
    var c := s.links[i].slot.call;
    assert LedgerFor(s, c);
    AcceptedOnce(s, c);
    InSlotsAt(s.links, i);
    forall j | 0 <= j < |s.links| && j != i ensures !IsIn(s.links[j], c) {
      if IsIn(s.links[j], c) {
        InSlotsTwice(s.links, if i < j then i else j, if i < j then j else i);
      }
    }
  }

  lemma HeldByToolOnly(s: State, i: nat)
    requires Ledger(s) && Numbered(s) && i < |s.tools|
    ensures var c := s.tools[i].call;
            && c in s.accepted && InAnswers(s.output, c) == 0 && InLost(s.lost, c) == 0
            && c !in s.silenced && s.buffered != Some(c) && InSlots(s.links, c) == 0
            && InTools(s.tools, c) == 1
  {
    assert LedgerFor(s, s.tools[i].call);
    AcceptedOnce(s, s.tools[i].call);
    InToolsAt(s.tools, i);
  }

  lemma HeldByBufferOnly(s: State)
    requires Ledger(s) && Numbered(s) && s.buffered.Some?
    ensures var c := s.buffered.value;
            && c in s.accepted && InAnswers(s.output, c) == 0 && InLost(s.lost, c) == 0
            && c !in s.silenced && InSlots(s.links, c) == 0 && InTools(s.tools, c) == 0
  {
    assert LedgerFor(s, s.buffered.value);
    AcceptedOnce(s, s.buffered.value);
  }

  // ---- The ledger, one call at a time ----------------------------------------

  lemma DispatchLedger(s: State, call: Call, c: Call)
    ensures var links := Dispatched(s.links, call);
            var lost := s.lost + (if CanDispatch(s.links) then [] else [Unsent(call)]);
            && InSlots(links, c) + InLost(lost, c) == InSlots(s.links, c) + InLost(s.lost, c) + One(call == c)
            && UnsentCount(lost) - IdleSlots(links) == UnsentCount(s.lost) - IdleSlots(s.links) + 1
  {
    if CanDispatch(s.links) {
      InSlotsDispatched(s.links, call, c);
      assert s.lost + [] == s.lost;
    } else {
      InLostAppend(s.lost, Unsent(call), c);
    }
  }

  lemma LedgerStep(s: State, e: Event, c: Call)
    requires LedgerFor(s, c) && Possible(s, e)
    ensures LedgerFor(Next(s, e), c)
  {
    match e
    case WorkerMoves(i, step) => InSlotsUpdate(s.links, i, Apply(s.links[i], step), c);
    case SendBuffered => SendLedger(s, c);
    case Line(line) => LineLedger(s, line, c);
    case WorkerReady(i) => WorkerLedger(s, i, c);
    case ToolReady(i, readable) => ToolReadyLedger(s, i, readable, c);
  }

  lemma SendLedger(s: State, c: Call)
    requires LedgerFor(s, c)
    ensures LedgerFor(DispatchBuffered(s), c)
  {
    if s.buffered.Some? && !AllBusy(s.links) { DispatchLedger(s, s.buffered.value, c); }
  }

  lemma WorkerLedger(s: State, i: nat, c: Call)
    requires LedgerFor(s, c) && i < |s.links| && Enabled(s.links[i], Collect)
    ensures LedgerFor(CollectWorker(s, i), c)
  {
    InSlotsUpdate(s.links, i, Apply(s.links[i], Collect), c);
    InAnswersAppend(s.output, Answer(VerdictOf(s.links[i]).call), c);
  }

  lemma ToolReadyLedger(s: State, i: nat, readable: bool, c: Call)
    requires LedgerFor(s, c) && i < |s.tools|
    ensures LedgerFor(CollectTool(s, i, readable), c)
  {
    InToolsRemove(s.tools, i, c);
    InAnswersAppend(s.output, Answer(s.tools[i].call), c);
    InLostAppend(s.lost, Unreadable(s.tools[i].call), c);
  }

  lemma LineLedger(s: State, line: Incoming, c: Call)
    requires LedgerFor(s, c)
    ensures LedgerFor(Handle(s, line), c)
  {
    var s', call := Handle(s, line), Call(|s.accepted|, NullId);
    match line.message
    case Blank => assert s' == s;
    case Notification => assert s' == s;
    case Malformed(id) =>
      OutputLedger(s, ProtocolError(id), c);
    case Protocol(id) =>
      OutputLedger(s, ProtocolReply(id), c);
    case Cancelled(id) =>
      assert s' == CancelInFlight(s, id);
      CancelLedger(s, id, c);
    case ToolCall(id) =>
      assert s' == AcceptTool(s, call.(id := id), line.threadStarts);
      ToolLedger(s, call.(id := id), line.threadStarts, c);
    case CommandCall(id) =>
      assert s' == AcceptCommand(s, call.(id := id));
      CommandLedger(s, call.(id := id), c);
  }

  lemma OutputLedger(s: State, o: Output, c: Call)
    requires LedgerFor(s, c) && !o.Answer?
    ensures LedgerFor(s.(output := s.output + [o]), c)
  {
    InAnswersAppend(s.output, o, c);
  }

  lemma CancelLedger(s: State, id: JsonId, c: Call)
    requires LedgerFor(s, c)
    ensures LedgerFor(CancelInFlight(s, id), c)
  {
    var k := FirstHolding(s.links, id);
    if s.buffered.Some? && s.buffered.value.id == id {
      SlotCancelLedger(s, c);
    } else if k < |s.links| {
      InSlotsUpdate(s.links, k, Apply(s.links[k], Cancel), c);
    } else {
      FlaggedKeepsCalls(s.tools, id, c);
    }
  }

  lemma SlotCancelLedger(s: State, c: Call)
    requires LedgerFor(s, c) && s.buffered.Some?
    ensures var b := s.buffered.value;
            LedgerFor(s.(buffered := None, silenced := s.silenced + [b], reached := s.reached + {b}), c)
  {
  }

  lemma ToolLedger(s: State, call: Call, threadStarts: bool, c: Call)
    requires LedgerFor(s, c)
    ensures LedgerFor(AcceptTool(s, call, threadStarts), c)
  {
    InToolsAppend(s.tools, [Tool(call, false)], c);
    InAnswersAppend(s.output, Answer(call), c);
  }

  lemma CommandLedger(s: State, call: Call, c: Call)
    requires LedgerFor(s, c)
    ensures LedgerFor(AcceptCommand(s, call), c)
  {
    if !AllBusy(s.links) {
      DispatchLedger(s, call, c);
    } else if s.buffered.Some? {
      InLostAppend(s.lost, Overwritten(s.buffered.value), c);
    } else {
      assert s.lost + [] == s.lost;
    }
  }

  // ---- Workers, numbering and the in-flight counter ---------------------------

  lemma PoolStep(s: State, e: Event)
    requires PoolInv(s.links) && Possible(s, e)
    ensures PoolInv(Next(s, e).links)
  {
    match e
    case WorkerMoves(i, step) => StepKeepsPool(s.links, i, step);
    case SendBuffered => if s.buffered.Some? { DispatchKeepsPool(s.links, s.buffered.value); }
    case Line(line) =>
      CancelKeepsPool(s.links, if line.message.Cancelled? then line.message.id else NullId);
      if line.message.CommandCall? { DispatchKeepsPool(s.links, Call(|s.accepted|, line.message.id)); }
    case WorkerReady(i) => StepKeepsPool(s.links, i, Collect);
    case ToolReady(_, _) =>
  }

  lemma CountsStep(s: State, e: Event)
    requires CountsMatch(s) && Possible(s, e)
    ensures CountsMatch(Next(s, e))
  {
    match e
    case WorkerMoves(i, step) => IdleSlotsUpdate(s.links, i, Apply(s.links[i], step));
    case SendBuffered =>
      if s.buffered.Some? { DispatchLedger(s, s.buffered.value, s.buffered.value); }
    case Line(line) =>
      if line.message.Cancelled? { CancelCounts(s, line.message.id); }
      if line.message.CommandCall? { CommandCounts(s, Call(|s.accepted|, line.message.id)); }
    case WorkerReady(i) => IdleSlotsUpdate(s.links, i, Apply(s.links[i], Collect));
    case ToolReady(i, _) => InLostAppend(s.lost, Unreadable(s.tools[i].call), s.tools[i].call);
  }

  lemma CancelCounts(s: State, id: JsonId)
    requires CountsMatch(s)
    ensures CountsMatch(CancelInFlight(s, id))
  {
    var k := FirstHolding(s.links, id);
    if k < |s.links| { IdleSlotsUpdate(s.links, k, Apply(s.links[k], Cancel)); }
  }

  lemma CommandCounts(s: State, call: Call)
    requires CountsMatch(s)
    ensures CountsMatch(AcceptCommand(s, call))
  {
    DispatchLedger(s, call, call);
    if s.buffered.Some? { InLostAppend(s.lost, Overwritten(s.buffered.value), call); }
    assert s.lost + [] == s.lost;
  }

  lemma NumberedStep(s: State, e: Event)
    requires Numbered(s) && Possible(s, e)
    ensures Numbered(Next(s, e))
  {
  }

  // ---- Cancellation flags ------------------------------------------------------

  /** The flag of every slot and tool, and the standing of every reached call. */
  lemma FlagsStep(s: State, e: Event)
    requires Inv(s) && Possible(s, e)
    ensures FlagsMatch(Next(s, e))
  {
    match e
    case WorkerMoves(i, step) => assert s.links[i] in s.links;
    case SendBuffered =>
      if s.buffered.Some? && !AllBusy(s.links) {
        HeldByBufferOnly(s);
        NewUnsent(s, s.buffered.value);
        DispatchFlags(s, s.buffered.value);
        var s' := DispatchBuffered(s);
        assert s.lost + [] == s.lost;
        forall c | c in s'.reached ensures ReachedIsQuiet(s', c) {
          assert ReachedIsQuiet(s, c);
        }
      }
    case Line(line) => LineFlags(s, line);
    case WorkerReady(i) => CollectFlags(s, i);
    case ToolReady(i, readable) => ToolFlags(s, i, readable);
  }

  lemma NewUnsent(s: State, call: Call)
    requires FlagsMatch(s) && call !in s.reached
    ensures forall c | c in s.reached :: InLost(s.lost + [Unsent(call)], c) == 0
  {
    forall c | c in s.reached ensures InLost(s.lost + [Unsent(call)], c) == 0 {
      assert ReachedIsQuiet(s, c);
      InLostAppend(s.lost, Unsent(call), c);
    }
  }

  lemma DispatchFlags(s: State, call: Call)
    requires FlagsMatch(s) && call !in s.reached
    ensures forall l | l in Dispatched(s.links, call) && l.slot.Busy? ::
              l.slot.cancelled <==> l.slot.call in s.reached
  {
  }

  lemma CollectFlags(s: State, i: nat)
    requires FlagsMatch(s) && Possible(s, WorkerReady(i))
    ensures FlagsMatch(CollectWorker(s, i))
  {
    var s', v := CollectWorker(s, i), VerdictOf(s.links[i]);
    assert s.links[i] in s.links;
    forall c | c in s'.reached ensures ReachedIsQuiet(s', c) {
      assert ReachedIsQuiet(s, c);
      InAnswersAppend(s.output, Answer(v.call), c);
    }
  }

  lemma ToolFlags(s: State, i: nat, readable: bool)
    requires FlagsMatch(s) && i < |s.tools|
    ensures FlagsMatch(CollectTool(s, i, readable))
  {
    var s', t := CollectTool(s, i, readable), s.tools[i];
    assert t in s.tools;
    forall c | c in s'.reached ensures ReachedIsQuiet(s', c) {
      assert ReachedIsQuiet(s, c);
      InAnswersAppend(s.output, Answer(t.call), c);
      InLostAppend(s.lost, Unreadable(t.call), c);
    }
  }

  lemma LineFlags(s: State, line: Incoming)
    requires Inv(s)
    ensures FlagsMatch(Handle(s, line))
  {
    var s', call := Handle(s, line), Call(|s.accepted|, NullId);
    match line.message
    case Blank => assert s' == s;
    case Notification => assert s' == s;
    case Malformed(id) => OutputFlags(s, ProtocolError(id));
    case Protocol(id) => OutputFlags(s, ProtocolReply(id));
    case Cancelled(id) =>
      assert s' == CancelInFlight(s, id);
      CancelFlags(s, id);
    case ToolCall(id) =>
      assert s' == AcceptTool(s, call.(id := id), line.threadStarts);
      ToolCallFlags(s, call.(id := id), line.threadStarts);
    case CommandCall(id) =>
      assert s' == AcceptCommand(s, call.(id := id));
      CommandFlags(s, call.(id := id));
  }

  lemma OutputFlags(s: State, o: Output)
    requires FlagsMatch(s) && !o.Answer?
    ensures FlagsMatch(s.(output := s.output + [o]))
  {
    forall c | c in s.reached ensures ReachedIsQuiet(s.(output := s.output + [o]), c) {
      assert ReachedIsQuiet(s, c);
      InAnswersAppend(s.output, o, c);
    }
  }

  /** A call that has just arrived is not one a cancellation has reached. */
  lemma NewCallUnreached(s: State, call: Call)
    requires Numbered(s) && FlagsMatch(s) && call.serial == |s.accepted|
    ensures call !in s.reached
  {
    AcceptedOnce(s, call);
    assert call in s.reached ==> ReachedIsQuiet(s, call);
  }

  lemma ToolCallFlags(s: State, call: Call, threadStarts: bool)
    requires Numbered(s) && FlagsMatch(s) && call.serial == |s.accepted|
    ensures FlagsMatch(AcceptTool(s, call, threadStarts))
  {
    var s' := AcceptTool(s, call, threadStarts);
    NewCallUnreached(s, call);
    assert forall t | t in s'.tools :: t in s.tools || t == Tool(call, false);
    forall c | c in s'.reached ensures ReachedIsQuiet(s', c) {
      assert ReachedIsQuiet(s, c);
      InAnswersAppend(s.output, Answer(call), c);
    }
  }

  lemma CommandFlags(s: State, call: Call)
    requires Numbered(s) && FlagsMatch(s) && call.serial == |s.accepted|
    ensures FlagsMatch(AcceptCommand(s, call))
  {
    var s' := AcceptCommand(s, call);
    NewCallUnreached(s, call);
    DispatchFlags(s, call);
    NewUnsent(s, call);
    assert s.lost + [] == s.lost;
    forall c | c in s'.reached ensures ReachedIsQuiet(s', c) {
      assert ReachedIsQuiet(s, c);
      if AllBusy(s.links) && s.buffered.Some? {
        InLostAppend(s.lost, Overwritten(s.buffered.value), c);
      }
    }
  }

  lemma CancelFlags(s: State, id: JsonId)
    requires Inv(s)
    ensures FlagsMatch(CancelInFlight(s, id))
  {
    var k := FirstHolding(s.links, id);
    if s.buffered.Some? && s.buffered.value.id == id {
      HeldByBufferOnly(s);
      CancelBufferedFlags(s, id);
    } else if k < |s.links| {
      HeldBySlotOnly(s, k);
      CancelSlotFlags(s, id);
    } else {
      CancelToolFlags(s, id);
    }
  }

  lemma CancelBufferedFlags(s: State, id: JsonId)
    requires Inv(s) && s.buffered.Some? && s.buffered.value.id == id
    ensures FlagsMatch(CancelInFlight(s, id))
  {
    var s', b := CancelInFlight(s, id), s.buffered.value;
    HeldByBufferOnly(s);
    forall l | l in s'.links && l.slot.Busy? ensures l.slot.call != b {
      var i :| 0 <= i < |s.links| && s.links[i] == l;
      InSlotsAt(s.links, i);
    }
    forall t | t in s'.tools ensures t.call != b {
      var i :| 0 <= i < |s.tools| && s.tools[i] == t;
      InToolsAt(s.tools, i);
    }
    forall c | c in s'.reached ensures ReachedIsQuiet(s', c) {
      if c != b { assert ReachedIsQuiet(s, c); }
    }
  }

  lemma CancelSlotFlags(s: State, id: JsonId)
    requires Inv(s) && !(s.buffered.Some? && s.buffered.value.id == id)
    requires FirstHolding(s.links, id) < |s.links|
    ensures FlagsMatch(CancelInFlight(s, id))
  {
    var s', k := CancelInFlight(s, id), FirstHolding(s.links, id);
    var call := s.links[k].slot.call;
    HeldBySlotOnly(s, k);
    forall l | l in s'.links && l.slot.Busy? ensures l.slot.cancelled <==> l.slot.call in s'.reached {
      var i :| 0 <= i < |s'.links| && s'.links[i] == l;
      assert i != k ==> s.links[i] in s.links;
    }
    forall t | t in s'.tools ensures t.call != call {
      var i :| 0 <= i < |s.tools| && s.tools[i] == t;
      InToolsAt(s.tools, i);
    }
    forall c | c in s'.reached ensures ReachedIsQuiet(s', c) {
      if c != call { assert ReachedIsQuiet(s, c); }
    }
  }

  lemma CancelToolFlags(s: State, id: JsonId)
    requires Inv(s) && !(s.buffered.Some? && s.buffered.value.id == id)
    requires FirstHolding(s.links, id) == |s.links|
    ensures FlagsMatch(CancelInFlight(s, id))
  {
    var s' := CancelInFlight(s, id);
    forall l | l in s'.links && l.slot.Busy? ensures l.slot.call.id != id {
      var i :| 0 <= i < |s.links| && s.links[i] == l;
      assert !Holds(s.links[i], id);
    }
    forall t' | t' in s'.tools ensures t'.cancelled <==> t'.call in s'.reached {
      var i :| 0 <= i < |s'.tools| && s'.tools[i] == t';
      assert s.tools[i] in s.tools;
    }
    forall c | c in s'.reached ensures ReachedIsQuiet(s', c) {
      if c in s.reached {
        assert ReachedIsQuiet(s, c);
      } else {
        var t :| t in s.tools && t.call.id == id && t.call == c;
        var i :| 0 <= i < |s.tools| && s.tools[i] == t;
        HeldByToolOnly(s, i);
      }
    }
  }

  lemma LoopStepKeepsInv(s: State, e: Event)
    requires Inv(s) && Possible(s, e)
    ensures Inv(Next(s, e))
  {
    PoolStep(s, e);
    forall c ensures LedgerFor(Next(s, e), c) {
      assert LedgerFor(s, c);
      LedgerStep(s, e, c);
    }
    NumberedStep(s, e);
    CountsStep(s, e);
    FlagsStep(s, e);
  }
}
