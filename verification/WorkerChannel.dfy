/** One worker slot of the coordinator, the two FIFO channels to its worker, and
    the worker process at the other end.

    Coordinator steps and worker steps interleave freely.  A cancel marker has
    no identity on the wire; `epoch` (the number of requests this slot has
    dispatched) is carried along only so that statements can say which request a
    message was sent for.  No step looks at the epoch of a message. */
module WorkerChannel {
  import opened Requests

  datatype ToWorker = Request(epoch: nat, call: Call) | CancelMarker(epoch: nat)

  datatype Reply = Reply(epoch: nat, call: Call)

  datatype Worker = Waiting | Running(epoch: nat, call: Call) | Gone

  datatype Slot = Idle | Busy(call: Call, cancelled: bool)

  datatype Link = Link(epoch: nat, slot: Slot,
                       toWorker: seq<ToWorker>, fromWorker: seq<Reply>,
                       worker: Worker)

  /** What the coordinator learns when it collects from a slot. */
  datatype Verdict = Verdict(call: Call, crashed: bool, suppressed: bool)

  datatype Step =
    | Dispatch(call: Call)  // coordinator writes a request
    | Cancel                // coordinator flags the slot and writes a marker
    | Receive               // waiting worker reads one message
    | Finish                // command ended: the worker writes its reply
    | NoticeActivity        // running worker sees its socket readable and exits
    | Crash                 // worker process dies
    | Collect               // coordinator reads the reply, or the end of file

  const Fresh := Link(0, Idle, [], [], Waiting)

  /** poll(2) reports the coordinator's end: a reply is there, or the peer is gone. */
  predicate Readable(l: Link) {
    |l.fromWorker| > 0 || l.worker.Gone?
  }

  predicate Enabled(l: Link, step: Step) {
    match step
    case Dispatch(_) => l.slot.Idle? && !l.worker.Gone?
    case Cancel => l.slot.Busy?
    case Receive => l.worker.Waiting? && |l.toWorker| > 0
    case Finish => l.worker.Running?
    case NoticeActivity => l.worker.Running? && |l.toWorker| > 0
    case Crash => !l.worker.Gone?
    case Collect => l.slot.Busy? && Readable(l)
  }

  function Apply(l: Link, step: Step): Link
    requires Enabled(l, step)
  {
    match step
    case Dispatch(call) =>
      l.(epoch := l.epoch + 1,
         slot := Busy(call, false),
         toWorker := l.toWorker + [Request(l.epoch + 1, call)])
    case Cancel =>
      l.(slot := Busy(l.slot.call, true),
         toWorker := if l.worker.Gone? then l.toWorker else l.toWorker + [CancelMarker(l.epoch)])
    case Receive =>
      var m := l.toWorker[0];
      l.(toWorker := l.toWorker[1..],
         worker := if m.Request? then Running(m.epoch, m.call) else Waiting)
    case Finish =>
      l.(fromWorker := l.fromWorker + [Reply(l.worker.epoch, l.worker.call)], worker := Waiting)
    case NoticeActivity => l.(toWorker := [], worker := Gone)
    case Crash => l.(toWorker := [], worker := Gone)
    case Collect =>
      if |l.fromWorker| > 0
      then l.(slot := Idle, fromWorker := l.fromWorker[1..])
      else Link(l.epoch, Idle, [], [], Waiting)  // respawned
  }

  function VerdictOf(l: Link): Verdict
    requires Enabled(l, Collect)
  {
    Verdict(l.slot.call, |l.fromWorker| == 0, l.slot.cancelled)
  }

  // ---- The inductive invariant ---------------------------------------------

  ghost predicate MarkersFor(q: seq<ToWorker>, epoch: nat, cancelled: bool) {
    && (forall m | m in q :: m == CancelMarker(epoch))
    && (|q| > 0 ==> cancelled)
  }

  /** Markers for this request only, and at least one if and only if it is cancelled. */
  ghost predicate MarkersExactly(q: seq<ToWorker>, epoch: nat, cancelled: bool) {
    MarkersFor(q, epoch, cancelled) && (cancelled ==> |q| > 0)
  }

  ghost predicate StaleMarkers(q: seq<ToWorker>, bound: nat) {
    forall m | m in q :: m.CancelMarker? && m.epoch < bound
  }

  /** The request waits in the channel at `k`, behind stale markers only. */
  ghost predicate UndeliveredAt(l: Link, k: int)
    requires l.slot.Busy?
  {
    && 0 <= k < |l.toWorker|
    && StaleMarkers(l.toWorker[..k], l.epoch)
    && l.toWorker[k] == Request(l.epoch, l.slot.call)
    && MarkersExactly(l.toWorker[k + 1..], l.epoch, l.slot.cancelled)
  }

  ghost predicate Undelivered(l: Link)
    requires l.slot.Busy?
  {
    l.worker.Waiting? && l.fromWorker == [] && exists k :: UndeliveredAt(l, k)
  }

  ghost predicate Executing(l: Link)
    requires l.slot.Busy?
  {
    && l.worker == Running(l.epoch, l.slot.call)
    && l.fromWorker == []
    && MarkersExactly(l.toWorker, l.epoch, l.slot.cancelled)
  }

  ghost predicate Replied(l: Link)
    requires l.slot.Busy?
  {
    && !l.worker.Running?
    && l.fromWorker == [Reply(l.epoch, l.slot.call)]
    && MarkersFor(l.toWorker, l.epoch, l.slot.cancelled)
  }

  ghost predicate Vanished(l: Link) {
    l.worker.Gone? && l.fromWorker == []
  }

  ghost predicate LinkInv(l: Link) {
    && (l.worker.Gone? ==> l.toWorker == [])
    && match l.slot
       case Idle =>
         && !l.worker.Running?
         && l.fromWorker == []
         && StaleMarkers(l.toWorker, l.epoch + 1)
       case Busy(_, _) =>
         Undelivered(l) || Executing(l) || Replied(l) || Vanished(l)
  }

  lemma DispatchKeepsInv(l: Link, call: Call)
    requires LinkInv(l) && Enabled(l, Dispatch(call))
    ensures LinkInv(Apply(l, Dispatch(call)))
  {
    var l' := Apply(l, Dispatch(call));
    assert l'.toWorker[..|l.toWorker|] == l.toWorker;
    assert UndeliveredAt(l', |l.toWorker|);
  }

  lemma CancelKeepsInv(l: Link)
    requires LinkInv(l) && Enabled(l, Cancel)
    ensures LinkInv(Apply(l, Cancel))
  {
    var l' := Apply(l, Cancel);
    if Undelivered(l) {
      var k :| UndeliveredAt(l, k);
      assert l'.toWorker[..k] == l.toWorker[..k];
      assert l'.toWorker[k + 1..] == l.toWorker[k + 1..] + [CancelMarker(l.epoch)];
      assert UndeliveredAt(l', k);
    }
  }

  /** An idle worker skips stale markers; the first message it runs is the
      request its slot is waiting for. */
  lemma ReceiveKeepsInv(l: Link)
    requires LinkInv(l) && Enabled(l, Receive)
    ensures LinkInv(Apply(l, Receive))
    ensures Apply(l, Receive).worker.Running? ==>
              l.slot.Busy? && Apply(l, Receive).worker == Running(l.epoch, l.slot.call)
  {
    var l' := Apply(l, Receive);
    assert l.toWorker[0] in l.toWorker;
    assert forall m | m in l'.toWorker :: m in l.toWorker;
    if l.slot.Busy? && Undelivered(l) {
      var k :| UndeliveredAt(l, k);
      if k == 0 {
        assert l'.toWorker == l.toWorker[k + 1..];
      } else {
        assert l.toWorker[0] in l.toWorker[..k];
        assert l'.toWorker[..k - 1] == l.toWorker[..k][1..];
        assert l'.toWorker[k..] == l.toWorker[k + 1..];
        assert UndeliveredAt(l', k - 1);
      }
    }
  }

  lemma StepKeepsInv(l: Link, step: Step)
    requires LinkInv(l) && Enabled(l, step)
    ensures LinkInv(Apply(l, step))
  {
    match step
    case Dispatch(call) => DispatchKeepsInv(l, call);
    case Cancel => CancelKeepsInv(l);
    case Receive => ReceiveKeepsInv(l);
    case Finish =>
    case NoticeActivity =>
    case Crash =>
    case Collect =>
  }

  // ---- Whole runs of one link ----------------------------------------------

  ghost predicate IsRun(states: seq<Link>, steps: seq<Step>) {
    && |states| == |steps| + 1
    && states[0] == Fresh
    && forall i | 0 <= i < |steps| ::
         Enabled(states[i], steps[i]) && states[i + 1] == Apply(states[i], steps[i])
  }

  lemma {:induction false} RunKeepsInv(states: seq<Link>, steps: seq<Step>, i: nat)
    requires IsRun(states, steps) && i < |states|
    ensures LinkInv(states[i])
  {
    if i > 0 {
      RunKeepsInv(states, steps, i - 1);
      StepKeepsInv(states[i - 1], steps[i - 1]);
    }
  }

  lemma {:induction false} EpochsGrow(states: seq<Link>, steps: seq<Step>, i: nat, j: nat)
    requires IsRun(states, steps) && i <= j < |states|
    ensures states[i].epoch <= states[j].epoch
    decreases j
  {
    if i < j {
      EpochsGrow(states, steps, i, j - 1);
      assert Enabled(states[j - 1], steps[j - 1]);
    }
  }

  /** The client cancelled, before point `i`, the request the slot then held. */
  ghost predicate CancelledBefore(states: seq<Link>, steps: seq<Step>, i: nat)
    requires IsRun(states, steps) && i < |states|
  {
    exists j :: 0 <= j < i && steps[j] == Cancel && states[j].epoch == states[i].epoch
  }

  lemma {:induction false} FlagRecordsCancel(states: seq<Link>, steps: seq<Step>, i: nat)
    requires IsRun(states, steps) && i < |states| && states[i].slot.Busy?
    ensures states[i].slot.cancelled <==> CancelledBefore(states, steps, i)
  {
    if i > 0 {
      var l, step := states[i - 1], steps[i - 1];
      assert Enabled(l, step) && states[i] == Apply(l, step);
      if step.Dispatch? {
        forall j | 0 <= j < i && steps[j] == Cancel
          ensures states[j].epoch != states[i].epoch
        {
          EpochsGrow(states, steps, j, i - 1);
        }
      } else {
        FlagRecordsCancel(states, steps, i - 1);
      }
    }
  }

  /** In every run, a worker is stopped by activity on its socket only when the
      request it is running is the one its slot holds and the coordinator was
      asked to cancel that very request. */
  lemma StoppedOnlyByItsOwnCancel(states: seq<Link>, steps: seq<Step>, i: nat)
    requires IsRun(states, steps) && i < |steps| && steps[i] == NoticeActivity
    ensures states[i].slot.Busy?
    ensures states[i].worker == Running(states[i].epoch, states[i].slot.call)
    ensures CancelledBefore(states, steps, i)
  {
    RunKeepsInv(states, steps, i);
    assert Enabled(states[i], steps[i]);
    assert states[i].toWorker[0] in states[i].toWorker;
    FlagRecordsCancel(states, steps, i);
  }

  /** And it can be stopped: in every run, a worker that runs a request has activity
      on its socket if and only if that request was cancelled. */
  lemma CancelledCommandCanBeStopped(states: seq<Link>, steps: seq<Step>, i: nat)
    requires IsRun(states, steps) && i < |states| && states[i].worker.Running?
    ensures Enabled(states[i], NoticeActivity) <==> CancelledBefore(states, steps, i)
  {
    RunKeepsInv(states, steps, i);
    FlagRecordsCancel(states, steps, i);
  }

  /** A cancelled request that is still on its way is stopped in the same manner: the
      worker reads it and then finds the marker. */
  lemma CancelledRequestIsFollowed(states: seq<Link>, steps: seq<Step>, i: nat, k: nat)
    requires IsRun(states, steps) && i < |states| && states[i].slot.Busy?
    requires k < |states[i].toWorker| && states[i].toWorker[k].Request?
    ensures states[i].toWorker[k] == Request(states[i].epoch, states[i].slot.call)
    ensures (exists m | k < m < |states[i].toWorker| :: states[i].toWorker[m] == CancelMarker(states[i].epoch))
            <==> CancelledBefore(states, steps, i)
  {
    RunKeepsInv(states, steps, i);
    FlagRecordsCancel(states, steps, i);
    var l := states[i];
    assert l.toWorker[k] in l.toWorker;
    var j :| UndeliveredAt(l, j);
    OnlyRequestAt(l, j, k);
    var behind := l.toWorker[k + 1..];
    if |behind| > 0 {
      assert behind[0] in behind && l.toWorker[k + 1] == behind[0];
    }
  }

  lemma OnlyRequestAt(l: Link, j: nat, k: nat)
    requires l.slot.Busy? && UndeliveredAt(l, j) && k < |l.toWorker| && l.toWorker[k].Request?
    ensures j == k
  {
    var front, back := l.toWorker[..j], l.toWorker[j + 1..];
    forall m | 0 <= m < j ensures !l.toWorker[m].Request? { assert front[m] in front; }
    forall m | j < m < |l.toWorker| ensures !l.toWorker[m].Request? { assert back[m - j - 1] in back; }
  }

  /** In every run, a busy slot whose worker has gone lost it during this very
      request: the process died, or it stopped because the request was cancelled. */
  lemma {:induction false} GoneHasCause(states: seq<Link>, steps: seq<Step>, i: nat)
    requires IsRun(states, steps) && i < |states| && states[i].slot.Busy? && states[i].worker.Gone?
    ensures exists j :: 0 <= j < i && states[j].epoch == states[i].epoch
                        && (steps[j] == Crash || steps[j] == NoticeActivity)
  {
    assert i > 0;
    var l, step := states[i - 1], steps[i - 1];
    assert Enabled(l, step) && states[i] == Apply(l, step);
    if l.worker.Gone? {
      GoneHasCause(states, steps, i - 1);
    } else {
      assert (step == Crash || step == NoticeActivity) && l.epoch == states[i].epoch;
    }
  }

  /** A collection reports a crash only if the worker's process died while it held
      the request, or the request was cancelled. */
  lemma CrashReportHasCause(states: seq<Link>, steps: seq<Step>, i: nat)
    requires IsRun(states, steps) && i < |steps| && steps[i] == Collect
    requires Enabled(states[i], Collect) && VerdictOf(states[i]).crashed
    ensures CancelledBefore(states, steps, i)
            || exists j :: 0 <= j < i && steps[j] == Crash && states[j].epoch == states[i].epoch
  {
    GoneHasCause(states, steps, i);
    var j :| 0 <= j < i && states[j].epoch == states[i].epoch && (steps[j] == Crash || steps[j] == NoticeActivity);
    if steps[j] == NoticeActivity {
      StoppedOnlyByItsOwnCancel(states, steps, j);
      var m :| 0 <= m < j && steps[m] == Cancel && states[m].epoch == states[j].epoch;
      assert 0 <= m < i;
    }
  }

  /** The worker finished, before point `i`, the request the slot then held. */
  ghost predicate FinishedBefore(states: seq<Link>, steps: seq<Step>, i: nat)
    requires IsRun(states, steps) && i < |states|
  {
    exists j :: 0 <= j < i && steps[j] == Finish && states[j].epoch == states[i].epoch
  }

  lemma {:induction false} ReplyRecordsFinish(states: seq<Link>, steps: seq<Step>, i: nat)
    requires IsRun(states, steps) && i < |states| && states[i].slot.Busy?
    ensures states[i].fromWorker != [] <==> FinishedBefore(states, steps, i)
  {
    if i > 0 {
      var l, step := states[i - 1], steps[i - 1];
      assert Enabled(l, step) && states[i] == Apply(l, step);
      RunKeepsInv(states, steps, i - 1);
      if step.Dispatch? {
        forall j | 0 <= j < i && steps[j] == Finish ensures states[j].epoch != states[i].epoch {
          EpochsGrow(states, steps, j, i - 1);
        }
      } else {
        ReplyRecordsFinish(states, steps, i - 1);
      }
    }
  }

  /** In every run, a collection reports a crash if and only if the worker never
      finished the request; a reply left by a worker that died later is still read. */
  lemma CrashedMeansUnfinished(states: seq<Link>, steps: seq<Step>, i: nat)
    requires IsRun(states, steps) && i < |steps| && steps[i] == Collect && Enabled(states[i], Collect)
    ensures VerdictOf(states[i]).crashed <==> !FinishedBefore(states, steps, i)
  {
    ReplyRecordsFinish(states, steps, i);
  }

  /** In every run, a worker starts a request only after it has consumed every
      marker sent for earlier requests of its slot. */
  lemma NoStaleMarkerReachesARunningCommand(states: seq<Link>, steps: seq<Step>, i: nat)
    requires IsRun(states, steps) && i < |states| && states[i].worker.Running?
    ensures forall m | m in states[i].toWorker :: m == CancelMarker(states[i].worker.epoch)
    ensures states[i].toWorker != [] ==> CancelledBefore(states, steps, i)
  {
    RunKeepsInv(states, steps, i);
    FlagRecordsCancel(states, steps, i);
  }

  /** In every run, what is collected belongs to the request the slot holds, and
      it is withheld from the client exactly when that request was cancelled. */
  lemma CollectedReplyBelongsToTheSlot(states: seq<Link>, steps: seq<Step>, i: nat)
    requires IsRun(states, steps) && i < |steps| && steps[i] == Collect
    ensures Enabled(states[i], Collect)
    ensures |states[i].fromWorker| > 0 ==>
              states[i].fromWorker == [Reply(states[i].epoch, VerdictOf(states[i]).call)]
    ensures VerdictOf(states[i]).suppressed <==> CancelledBefore(states, steps, i)
  {
    RunKeepsInv(states, steps, i);
    assert Enabled(states[i], steps[i]);
    FlagRecordsCancel(states, steps, i);
  }

  /** The request dispatched at step `i` is the one collected at step `j`. */
  lemma {:induction false} SlotHoldsItsRequest(states: seq<Link>, steps: seq<Step>, i: nat, j: nat)
    requires IsRun(states, steps) && i < j < |states|
    requires steps[i].Dispatch? && states[j].epoch == states[i + 1].epoch && states[j].slot.Busy?
    ensures states[j].slot.call == steps[i].call
    decreases j
  {
    assert Enabled(states[i], steps[i]);
    if j > i + 1 {
      assert Enabled(states[j - 1], steps[j - 1]);
      EpochsGrow(states, steps, i + 1, j - 1);
      SlotHoldsItsRequest(states, steps, i, j - 1);
    }
  }

  /** Two collections never report the same dispatch. */
  lemma {:induction false} CollectedOnce(states: seq<Link>, steps: seq<Step>, i: nat, j: nat)
    requires IsRun(states, steps) && i < j < |steps|
    requires steps[i] == Collect && steps[j] == Collect
    ensures states[i].epoch < states[j].epoch
  {
    IdleUntilDispatch(states, steps, i + 1, j);
    assert Enabled(states[i], steps[i]) && Enabled(states[j], steps[j]);
  }

  lemma {:induction false} IdleUntilDispatch(states: seq<Link>, steps: seq<Step>, i: nat, j: nat)
    requires IsRun(states, steps) && i <= j < |states| && states[i].slot.Idle?
    ensures states[i].epoch < states[j].epoch || states[j].slot.Idle?
    decreases j
  {
    if i < j {
      IdleUntilDispatch(states, steps, i, j - 1);
      EpochsGrow(states, steps, i, j - 1);
      assert Enabled(states[j - 1], steps[j - 1]);
    }
  }

  /** No request is stuck: whenever a slot is busy, its worker can move or the
      coordinator can collect. */
  lemma BusyLinkProgresses(l: Link)
    requires LinkInv(l) && l.slot.Busy?
    ensures Enabled(l, Receive) || Enabled(l, Finish) || Enabled(l, Collect)
  {
  }
}
