/** The coordinator's pool of workers: which slot a call goes to, which slot a
    cancellation reaches, and what a collection leaves behind. */
module WorkerPool {
  import opened Requests
  import opened WorkerChannel

  ghost predicate PoolInv(links: seq<Link>) {
    forall l | l in links :: LinkInv(l)
  }

  predicate Holds(l: Link, id: JsonId) {
    l.slot.Busy? && l.slot.call.id == id
  }

  /** The first idle slot, or |links| when every worker is occupied. */
  function FirstIdle(links: seq<Link>): (k: nat)
    ensures k <= |links|
    ensures k < |links| ==> links[k].slot.Idle?
    ensures forall i | 0 <= i < k :: links[i].slot.Busy?
  {
    if links == [] || links[0].slot.Idle? then 0 else 1 + FirstIdle(links[1..])
  }

  /** The first slot holding a call with this id, or |links|. */
  function FirstHolding(links: seq<Link>, id: JsonId): (k: nat)
    ensures k <= |links|
    ensures k < |links| ==> Holds(links[k], id)
    ensures forall i | 0 <= i < k :: !Holds(links[i], id)
  {
    if links == [] || Holds(links[0], id) then 0 else 1 + FirstHolding(links[1..], id)
  }

  predicate AllBusy(links: seq<Link>) {
    FirstIdle(links) == |links|
  }

  /** Writing the request succeeds: there is an idle slot, and the process behind
      the first one is alive. */
  predicate CanDispatch(links: seq<Link>) {
    !AllBusy(links) && !links[FirstIdle(links)].worker.Gone?
  }

  function Dispatched(links: seq<Link>, call: Call): seq<Link> {
    if CanDispatch(links)
    then var k := FirstIdle(links); links[k := Apply(links[k], Dispatch(call))]
    else links
  }

  function CancelledIn(links: seq<Link>, id: JsonId): seq<Link> {
    var k := FirstHolding(links, id);
    if k < |links| then links[k := Apply(links[k], Cancel)] else links
  }

  function IdleSlots(links: seq<Link>): nat {
    if links == [] then 0 else (if links[0].slot.Idle? then 1 else 0) + IdleSlots(links[1..])
  }

  /** Indices of the busy slots from `from` on, in order. */
  function BusyFrom(links: seq<Link>, from: nat): (r: seq<nat>)
    requires from <= |links|
    ensures forall i | i in r :: from <= i < |links| && links[i].slot.Busy?
    ensures forall i | from <= i < |links| && links[i].slot.Busy? :: i in r
    ensures forall a, b | 0 <= a < b < |r| :: r[a] < r[b]
    decreases |links| - from
  {
    if from == |links| then []
    else if links[from].slot.Busy? then
      var rest := BusyFrom(links, from + 1);
      assert forall b | 0 <= b < |rest| :: rest[b] in rest;
      [from] + rest
    else BusyFrom(links, from + 1)
  }

  lemma FirstIdleIs(links: seq<Link>, k: nat)
    requires k <= |links|
    requires k < |links| ==> links[k].slot.Idle?
    requires forall i | 0 <= i < k :: links[i].slot.Busy?
    ensures FirstIdle(links) == k
  {
  }

  lemma FirstHoldingIs(links: seq<Link>, id: JsonId, k: nat)
    requires k <= |links|
    requires k < |links| ==> Holds(links[k], id)
    requires forall i | 0 <= i < k :: !Holds(links[i], id)
    ensures FirstHolding(links, id) == k
  {
  }

  lemma {:induction false} IdleSlotsZero(links: seq<Link>)
    ensures IdleSlots(links) == 0 <==> AllBusy(links)
  {
    if links != [] {
      IdleSlotsZero(links[1..]);
    }
  }

  lemma {:induction false} IdleSlotsSplit(links: seq<Link>, i: nat)
    requires i < |links|
    ensures IdleSlots(links[..i + 1]) == IdleSlots(links[..i]) + (if links[i].slot.Idle? then 1 else 0)
  {
    if i > 0 {
      assert links[..i + 1][1..] == links[1..][..i];
      assert links[..i][1..] == links[1..][..i - 1];
      IdleSlotsSplit(links[1..], i - 1);
    }
  }

  lemma {:induction false} BusyFromStep(links: seq<Link>, i: nat)
    requires i < |links|
    ensures BusyFrom(links[..i + 1], 0) ==
            BusyFrom(links[..i], 0) + (if links[i].slot.Busy? then [i] else [])
  {
    BusyFromPrefix(links, 0, i);
  }

  lemma {:induction false} BusyFromPrefix(links: seq<Link>, from: nat, i: nat)
    requires from <= i < |links|
    ensures BusyFrom(links[..i + 1], from) ==
            BusyFrom(links[..i], from) + (if links[i].slot.Busy? then [i] else [])
    decreases i - from
  {
    if from < i {
      BusyFromPrefix(links, from + 1, i);
    } else {
      assert BusyFrom(links[..i + 1], i + 1) == [];
    }
  }

  // ---- What the operations keep --------------------------------------------

  lemma DispatchKeepsPool(links: seq<Link>, call: Call)
    requires PoolInv(links)
    ensures PoolInv(Dispatched(links, call))
  {
    if CanDispatch(links) {
      DispatchKeepsInv(links[FirstIdle(links)], call);
    }
  }

  lemma CancelKeepsPool(links: seq<Link>, id: JsonId)
    requires PoolInv(links)
    ensures PoolInv(CancelledIn(links, id))
  {
    var k := FirstHolding(links, id);
    if k < |links| {
      CancelKeepsInv(links[k]);
    }
  }

  lemma StepKeepsPool(links: seq<Link>, i: nat, step: Step)
    requires PoolInv(links) && i < |links| && Enabled(links[i], step)
    ensures PoolInv(links[i := Apply(links[i], step)])
  {
    StepKeepsInv(links[i], step);
  }

  /** The slot at `k` is flagged, and a live worker there gets one more marker. */
  predicate MarkerSent(before: seq<Link>, after: seq<Link>, k: nat) {
    && |after| == |before| && k < |before| && before[k].slot.Busy?
    && after[k].slot == Busy(before[k].slot.call, true)
    && (!before[k].worker.Gone? ==> after[k].toWorker == before[k].toWorker + [CancelMarker(before[k].epoch)])
  }

  /** The coordinator's object. */
  class Pool {
    var links: seq<Link>

    constructor (workers: nat)
      ensures links == seq(workers, i => Fresh)
      ensures PoolInv(links)
    {
      links := seq(workers, i => Fresh);
    }

    /** Hands the call to the first idle worker; the write can fail. */
    method TryDispatch(call: Call) returns (ok: bool)
      modifies this
      ensures ok <==> CanDispatch(old(links))
      ensures links == Dispatched(old(links), call)
    {
      var i := 0;
      while i < |links|
        invariant 0 <= i <= |links|
        invariant links == old(links)
        invariant forall j | 0 <= j < i :: links[j].slot.Busy?
      {
        if links[i].slot.Busy? {
          i := i + 1;
          continue;
        }
        FirstIdleIs(links, i);
        if links[i].worker.Gone? {
          return false;
        }
        links := links[i := Apply(links[i], Dispatch(call))];
        return true;
      }
      FirstIdleIs(links, |links|);
      return false;
    }

    method IdleCount() returns (n: nat)
      ensures n == IdleSlots(links)
      ensures n == 0 <==> AllBusy(links)
    {
      n := 0;
      for i := 0 to |links|
        invariant n == IdleSlots(links[..i])
      {
        IdleSlotsSplit(links, i);
        if !links[i].slot.Busy? {
          n := n + 1;
        }
      }
      assert links[..|links|] == links;
      IdleSlotsZero(links);
    }

    method BusyEntries() returns (r: seq<nat>)
      ensures r == BusyFrom(links, 0)
    {
      r := [];
      for i := 0 to |links|
        invariant r == BusyFrom(links[..i], 0)
      {
        BusyFromStep(links, i);
        if links[i].slot.Busy? {
          r := r + [i];
        }
      }
      assert links[..|links|] == links;
    }

    /** Flags the first slot running `id` and tells its worker to stop. */
    method Cancel(id: JsonId) returns (hit: bool)
      modifies this
      ensures hit <==> FirstHolding(old(links), id) < |old(links)|
      ensures links == CancelledIn(old(links), id)
      ensures hit ==> MarkerSent(old(links), links, FirstHolding(old(links), id))
    {
      var i := 0;
      while i < |links|
        invariant 0 <= i <= |links|
        invariant links == old(links)
        invariant forall j | 0 <= j < i :: !Holds(links[j], id)
      {
        if !links[i].slot.Busy? || links[i].slot.call.id != id {
          i := i + 1;
          continue;
        }
        FirstHoldingIs(links, id, i);
        links := links[i := Apply(links[i], WorkerChannel.Cancel)];
        return true;
      }
      FirstHoldingIs(links, id, |links|);
      return false;
    }

    /** Reads the reply of a readable slot; at end of file the worker is replaced. */
    method Collect(idx: nat) returns (v: Verdict)
      requires idx < |links| && Enabled(links[idx], WorkerChannel.Collect)
      modifies this
      ensures v == VerdictOf(old(links)[idx])
      ensures links == old(links)[idx := Apply(old(links)[idx], WorkerChannel.Collect)]
    {
      var l := links[idx];
      var wasCancelled := l.slot.cancelled;
      if |l.fromWorker| == 0 {
        v := Verdict(l.slot.call, true, wasCancelled);
        links := links[idx := Link(l.epoch, Idle, [], [], Waiting)];
        return;
      }
      links := links[idx := l.(slot := Idle, fromWorker := l.fromWorker[1..])];
      v := Verdict(l.slot.call, false, wasCancelled);
    }
  }
}
