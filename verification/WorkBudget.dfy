// The bounded work gate: slots handed directly from a finished call to the head of the queue, with
// cancellation while queued and reclaiming of slots whose aborted task never settles.
//
// A call to run is an id. Its steps between awaits are events: it starts, its signal aborts, it
// resumes after a grant, its task settles, its grace timer fires, and its finally block runs.
module WorkBudget {
  import opened Results
  import opened Sequences

  datatype Phase =
    | Refused(busy: bool)       // threw before taking a slot or a place in the queue
    | Waiting                   // in the queue
    | Cancelled                 // aborted while queued
    | Granted(aborted: bool)    // handed a slot, not yet resumed
    | Running(timer: bool)      // its work runs; timer says the grace timer has been started
    | Settled                   // the awaited promise is settled, the finally block is due
    | Released                  // the finally block has run

  datatype Event =
    | Start(id: nat, aborted: bool)
    | Abort(id: nat)
    | Resume(id: nat)
    | Settle(id: nat)
    | Grace(id: nat)
    | Finish(id: nat)

  datatype Limits = Limits(capacity: nat, maxQueue: nat)

  datatype Gate = Gate(active: int, abandoned: nat, queue: seq<nat>, calls: map<nat, Phase>)

  predicate Holds(p: Phase) {
    p.Granted? || p.Running? || p.Settled?
  }

  function Holders(calls: map<nat, Phase>): set<nat> {
    set id | id in calls && Holds(calls[id])
  }

  function Without(queue: seq<nat>, id: nat): seq<nat> {
    if queue == [] then [] else if queue[0] == id then queue[1..] else [queue[0]] + Without(queue[1..], id)
  }

  // The finally block of call id: hand the slot to the head of the queue, or give it back.
  function Free(g: Gate, id: nat): Gate {
    var done := g.calls[id := Released];
    if g.queue == [] then g.(active := g.active - 1, calls := done)
    else g.(queue := g.queue[1..], calls := done[g.queue[0] := Granted(false)])
  }

  // What one event does. An event that cannot happen in the call's phase changes nothing: a settled
  // promise ignores a second settlement, and a listener or timer that was removed does not fire.
  function Step(limits: Limits, g: Gate, e: Event): Gate {
    match e
    case Start(id, aborted) =>
      if id in g.calls then g
      else if aborted then g.(calls := g.calls[id := Refused(false)])
      else if g.active < limits.capacity then g.(active := g.active + 1, calls := g.calls[id := Running(false)])
      else if |g.queue| >= limits.maxQueue then g.(calls := g.calls[id := Refused(true)])
      else g.(queue := g.queue + [id], calls := g.calls[id := Waiting])
    case Abort(id) =>
      if id !in g.calls then g
      else if g.calls[id].Waiting? then g.(queue := Without(g.queue, id), calls := g.calls[id := Cancelled])
      else if g.calls[id].Granted? then g.(calls := g.calls[id := Granted(true)])
      else if g.calls[id].Running? then g.(calls := g.calls[id := Running(true)])
      else g
    case Resume(id) =>
      if id !in g.calls || !g.calls[id].Granted? then g
      else if g.calls[id].aborted then Free(g, id)
      else g.(calls := g.calls[id := Running(false)])
    case Settle(id) =>
      if id in g.calls && g.calls[id].Running? then g.(calls := g.calls[id := Settled]) else g
    case Grace(id) =>
      if id in g.calls && g.calls[id] == Running(true)
      then g.(abandoned := g.abandoned + 1, calls := g.calls[id := Settled]) else g
    case Finish(id) =>
      if id in g.calls && g.calls[id].Settled? then Free(g, id) else g
  }

  // What happened so far, for stating order and accounting.
  datatype History = History(arrivals: seq<nat>, cancelled: set<nat>, grants: seq<nat>, acquired: multiset<nat>, released: multiset<nat>)

  function RecordFree(g: Gate, h: History, id: nat): History {
    var freed := h.(released := h.released + multiset{id});
    if g.queue == [] then freed
    else freed.(grants := h.grants + [g.queue[0]], acquired := h.acquired + multiset{g.queue[0]})
  }

  function Record(limits: Limits, g: Gate, h: History, e: Event): History {
    match e
    case Start(id, aborted) =>
      if id in g.calls || aborted then h
      else if g.active < limits.capacity then h.(acquired := h.acquired + multiset{id})
      else if |g.queue| >= limits.maxQueue then h
      else h.(arrivals := h.arrivals + [id])
    case Abort(id) =>
      if id in g.calls && g.calls[id].Waiting? then h.(cancelled := h.cancelled + {id}) else h
    case Resume(id) =>
      if id in g.calls && g.calls[id] == Granted(true) then RecordFree(g, h, id) else h
    case Finish(id) =>
      if id in g.calls && g.calls[id].Settled? then RecordFree(g, h, id) else h
    case _ => h
  }

  const EMPTY := Gate(0, 0, [], map[])
  const NOTHING := History([], {}, [], multiset{}, multiset{})

  function RunGate(limits: Limits, events: seq<Event>): Gate {
    if events == [] then EMPTY
    else Step(limits, RunGate(limits, events[..|events| - 1]), events[|events| - 1])
  }

  function RunHistory(limits: Limits, events: seq<Event>): History {
    if events == [] then NOTHING
    else
      var before := events[..|events| - 1];
      Record(limits, RunGate(limits, before), RunHistory(limits, before), events[|events| - 1])
  }

  // ----- the invariant -----

  ghost predicate Inv(limits: Limits, g: Gate) {
    && 0 <= g.active == |Holders(g.calls)| <= limits.capacity
    && (g.queue != [] ==> g.active == limits.capacity)
    && |g.queue| <= limits.maxQueue
    && Distinct(g.queue)
    && forall id :: id in g.queue <==> id in g.calls && g.calls[id].Waiting?
  }

  lemma HoldersUpdate(calls: map<nat, Phase>, id: nat, p: Phase)
    ensures Holders(calls[id := p]) == if Holds(p) then Holders(calls) + {id} else Holders(calls) - {id}
  {
  }

  lemma {:induction false} WithoutFacts(queue: seq<nat>, id: nat)
    requires Distinct(queue)
    ensures Distinct(Without(queue, id)) && |Without(queue, id)| == |queue| - if id in queue then 1 else 0
    ensures forall x :: x in Without(queue, id) <==> x in queue && x != id
  {
    if queue != [] {
      assert queue[0] !in queue[1..];
      assert queue == [queue[0]] + queue[1..];
      if queue[0] != id {
        WithoutFacts(queue[1..], id);
        DistinctConcat([queue[0]], Without(queue[1..], id));
      }
    }
  }

  lemma FreeKeepsInv(limits: Limits, g: Gate, id: nat)
    requires Inv(limits, g) && id in g.calls && Holds(g.calls[id])
    ensures Inv(limits, Free(g, id))
  {
    var done := g.calls[id := Released];
    HoldersUpdate(g.calls, id, Released);
    assert id in Holders(g.calls);
    if g.queue != [] {
      var next := g.queue[0];
      assert next in g.queue;
      HoldersUpdate(done, next, Granted(false));
      assert next !in Holders(done);
      assert g.queue == [next] + g.queue[1..];
    }
  }

  // A call that neither waits before nor after changes only its own phase.
  lemma PhaseKeepsInv(limits: Limits, g: Gate, id: nat, p: Phase, abandoned: nat)
    requires Inv(limits, g) && !p.Waiting?
    requires id in g.calls ==> !g.calls[id].Waiting? && Holds(g.calls[id]) == Holds(p)
    requires id !in g.calls ==> !Holds(p)
    ensures Inv(limits, Gate(g.active, abandoned, g.queue, g.calls[id := p]))
  {
    HoldersUpdate(g.calls, id, p);
    assert (id in g.calls && Holds(g.calls[id])) == (id in Holders(g.calls));
  }

  lemma AdmitKeepsInv(limits: Limits, g: Gate, id: nat)
    requires Inv(limits, g) && id !in g.calls && g.active < limits.capacity
    ensures Inv(limits, g.(active := g.active + 1, calls := g.calls[id := Running(false)]))
  {
    HoldersUpdate(g.calls, id, Running(false));
    assert id !in Holders(g.calls);
  }

  lemma EnqueueKeepsInv(limits: Limits, g: Gate, id: nat)
    requires Inv(limits, g) && id !in g.calls && g.active >= limits.capacity && |g.queue| < limits.maxQueue
    ensures Inv(limits, g.(queue := g.queue + [id], calls := g.calls[id := Waiting]))
  {
    HoldersUpdate(g.calls, id, Waiting);
    assert id !in Holders(g.calls) && id !in g.queue;
    DistinctConcat(g.queue, [id]);
  }

  lemma StartKeepsInv(limits: Limits, g: Gate, id: nat, aborted: bool)
    requires Inv(limits, g)
    ensures Inv(limits, Step(limits, g, Start(id, aborted)))
  {
    hide Inv;
    if id !in g.calls {
      if aborted {
        PhaseKeepsInv(limits, g, id, Refused(false), g.abandoned);
      } else if g.active < limits.capacity {
        AdmitKeepsInv(limits, g, id);
      } else if |g.queue| >= limits.maxQueue {
        PhaseKeepsInv(limits, g, id, Refused(true), g.abandoned);
      } else {
        EnqueueKeepsInv(limits, g, id);
      }
    }
  }

  lemma CancelKeepsInv(limits: Limits, g: Gate, id: nat)
    requires Inv(limits, g) && id in g.calls && g.calls[id].Waiting?
    ensures Inv(limits, Step(limits, g, Abort(id)))
  {
    WithoutFacts(g.queue, id);
    HoldersUpdate(g.calls, id, Cancelled);
    assert id !in Holders(g.calls);
  }

  lemma StepKeepsInv(limits: Limits, g: Gate, e: Event)
    requires Inv(limits, g)
    ensures Inv(limits, Step(limits, g, e))
  {
    hide Inv, Free, Without;
    var id := e.id;
    if e.Start? {
      StartKeepsInv(limits, g, id, e.aborted);
    } else if id in g.calls {
      if e.Abort? && g.calls[id].Waiting? {
        CancelKeepsInv(limits, g, id);
      } else if (e.Finish? && g.calls[id].Settled?) || (e.Resume? && g.calls[id] == Granted(true)) {
        FreeKeepsInv(limits, g, id);
      } else if Step(limits, g, e) != g {
        var next := Step(limits, g, e);
        PhaseKeepsInv(limits, g, id, next.calls[id], next.abandoned);
      }
    }
  }

  lemma {:induction false} AlwaysInv(limits: Limits, events: seq<Event>)
    ensures Inv(limits, RunGate(limits, events))
  {
    if events == [] {
      assert Holders(EMPTY.calls) == {};
    } else {
      hide Step, Inv;
      AlwaysInv(limits, events[..|events| - 1]);
      StepKeepsInv(limits, RunGate(limits, events[..|events| - 1]), events[|events| - 1]);
    }
  }

  // ----- order and accounting -----

  // The arrivals that were not cancelled, in order.
  function Live(arrivals: seq<nat>, cancelled: set<nat>): seq<nat> {
    if arrivals == [] then []
    else
      var rest := Live(arrivals[..|arrivals| - 1], cancelled);
      var last := arrivals[|arrivals| - 1];
      if last in cancelled then rest else rest + [last]
  }

  // Grants come in arrival order: what was granted, then what is queued, is what arrived and stayed.
  ghost predicate Fifo(g: Gate, h: History) {
    && Live(h.arrivals, h.cancelled) == h.grants + g.queue
    && Distinct(h.arrivals)
    && (forall id :: id in h.arrivals ==> id in g.calls)
    && (forall id :: id in h.cancelled ==> id in g.calls && g.calls[id].Cancelled?)
    && forall id :: id in h.grants ==> id in g.calls && (Holds(g.calls[id]) || g.calls[id].Released?)
  }

  // A call holds a slot exactly when it acquired one and has not released it; it does either at most once.
  predicate Ledger(p: Phase, acquired: nat, released: nat) {
    && acquired == (if Holds(p) || p.Released? then 1 else 0)
    && released == (if p.Released? then 1 else 0)
  }

  ghost predicate Books(g: Gate, h: History) {
    forall id: nat ::
      if id in g.calls then Ledger(g.calls[id], h.acquired[id], h.released[id]) else h.acquired[id] == 0 == h.released[id]
  }

  lemma {:induction false} WithoutOthers(a: seq<nat>, b: seq<nat>, id: nat)
    requires id !in a
    ensures Without(a + b, id) == a + Without(b, id)
  {
    if a == [] {
      assert a + b == b;
    } else {
      assert (a + b)[1..] == a[1..] + b;
      WithoutOthers(a[1..], b, id);
    }
  }

  lemma {:induction false} WithoutLast(a: seq<nat>, x: nat, id: nat)
    requires x != id
    ensures Without(a + [x], id) == Without(a, id) + [x]
  {
    if a != [] {
      assert (a + [x])[1..] == a[1..] + [x];
      if a[0] != id {
        WithoutLast(a[1..], x, id);
        assert [a[0]] + (Without(a[1..], id) + [x]) == [a[0]] + Without(a[1..], id) + [x];
      }
    }
  }

  lemma {:induction false} LiveMembers(arrivals: seq<nat>, cancelled: set<nat>, id: nat)
    ensures id in Live(arrivals, cancelled) <==> id in arrivals && id !in cancelled
  {
    if arrivals != [] {
      LiveMembers(arrivals[..|arrivals| - 1], cancelled, id);
      assert arrivals == arrivals[..|arrivals| - 1] + [arrivals[|arrivals| - 1]];
    }
  }

  // Cancelling one arrival takes exactly that one out of line.
  lemma {:induction false} LiveCancel(arrivals: seq<nat>, cancelled: set<nat>, id: nat)
    requires Distinct(arrivals)
    ensures Live(arrivals, cancelled + {id}) == Without(Live(arrivals, cancelled), id)
  {
    if arrivals != [] {
      var before, last := arrivals[..|arrivals| - 1], arrivals[|arrivals| - 1];
      var rest := Live(before, cancelled);
      LiveCancel(before, cancelled, id);
      LiveMembers(before, cancelled, id);
      if last == id {
        WithoutOthers(rest, [id], id);
        WithoutOthers(rest, [], id);
        assert rest + [] == rest;
        assert Without([id], id) == [];
      } else if last !in cancelled {
        WithoutLast(rest, last, id);
      }
    }
  }

  lemma LiveArrive(arrivals: seq<nat>, cancelled: set<nat>, id: nat)
    requires id !in cancelled
    ensures Live(arrivals + [id], cancelled) == Live(arrivals, cancelled) + [id]
  {
    assert (arrivals + [id])[..|arrivals|] == arrivals;
  }

  lemma StartKeepsFifo(limits: Limits, g: Gate, h: History, id: nat, aborted: bool)
    requires Inv(limits, g) && Fifo(g, h)
    ensures Fifo(Step(limits, g, Start(id, aborted)), Record(limits, g, h, Start(id, aborted)))
  {
    hide Inv, Live, Distinct;
    if id !in g.calls {
      LiveArrive(h.arrivals, h.cancelled, id);
      DistinctConcat(h.arrivals, [id]);
      assert h.grants + g.queue + [id] == h.grants + (g.queue + [id]);
    }
  }

  lemma CancelKeepsFifo(limits: Limits, g: Gate, h: History, id: nat)
    requires Inv(limits, g) && Fifo(g, h) && id in g.calls && g.calls[id].Waiting?
    ensures Fifo(Step(limits, g, Abort(id)), Record(limits, g, h, Abort(id)))
  {
    hide Inv, Live, Distinct, Without;
    LiveCancel(h.arrivals, h.cancelled, id);
    WithoutOthers(h.grants, g.queue, id);
  }

  lemma FreeKeepsFifo(limits: Limits, g: Gate, h: History, id: nat)
    requires Inv(limits, g) && Fifo(g, h) && id in g.calls && Holds(g.calls[id])
    ensures Fifo(Free(g, id), RecordFree(g, h, id))
  {
    hide Live, Distinct;
    if g.queue != [] {
      assert g.queue[0] in g.queue;
      assert h.grants + [g.queue[0]] + g.queue[1..] == h.grants + g.queue;
    }
  }

  lemma StepKeepsFifo(limits: Limits, g: Gate, h: History, e: Event)
    requires Inv(limits, g) && Fifo(g, h)
    ensures Fifo(Step(limits, g, e), Record(limits, g, h, e))
  {
    hide Inv, Live, Distinct, Without, Free, RecordFree;
    var id := e.id;
    if e.Start? {
      StartKeepsFifo(limits, g, h, id, e.aborted);
    } else if id in g.calls {
      if e.Abort? && g.calls[id].Waiting? {
        CancelKeepsFifo(limits, g, h, id);
      } else if (e.Finish? && g.calls[id].Settled?) || (e.Resume? && g.calls[id] == Granted(true)) {
        FreeKeepsFifo(limits, g, h, id);
      }
    }
  }

  lemma FreeKeepsBooks(limits: Limits, g: Gate, h: History, id: nat)
    requires Inv(limits, g) && Books(g, h) && id in g.calls && Holds(g.calls[id])
    ensures Books(Free(g, id), RecordFree(g, h, id))
  {
    if g.queue != [] {
      assert g.queue[0] in g.queue;
    }
  }

  // One call changes phase, and its own account with it.
  lemma BooksUpdate(g: Gate, h: History, g': Gate, h': History, id: nat, p: Phase)
    requires Books(g, h) && g'.calls == g.calls[id := p]
    requires forall x: nat :: x != id ==> h'.acquired[x] == h.acquired[x] && h'.released[x] == h.released[x]
    requires Ledger(p, h'.acquired[id], h'.released[id])
    ensures Books(g', h')
  {
  }

  lemma BooksAt(g: Gate, h: History, id: nat)
    requires Books(g, h)
    ensures if id in g.calls then Ledger(g.calls[id], h.acquired[id], h.released[id]) else h.acquired[id] == 0 == h.released[id]
  {
  }

  lemma BooksSame(g: Gate, h: History, g': Gate, h': History)
    requires Books(g, h) && g'.calls == g.calls && h' == h
    ensures Books(g', h')
  {
  }

  lemma StepKeepsBooks(limits: Limits, g: Gate, h: History, e: Event)
    requires Inv(limits, g) && Books(g, h)
    ensures Books(Step(limits, g, e), Record(limits, g, h, e))
  {
    hide Inv, Without, Free, RecordFree, Books;
    var id, g', h' := e.id, Step(limits, g, e), Record(limits, g, h, e);
    BooksAt(g, h, id);
    if id in g.calls && ((e.Finish? && g.calls[id].Settled?) || (e.Resume? && g.calls[id] == Granted(true))) {
      FreeKeepsBooks(limits, g, h, id);
    } else if g' == g {
      BooksSame(g, h, g', h');
    } else {
      BooksUpdate(g, h, g', h', id, g'.calls[id]);
    }
  }

  lemma {:induction false} AlwaysAccounted(limits: Limits, events: seq<Event>)
    ensures Fifo(RunGate(limits, events), RunHistory(limits, events))
    ensures Books(RunGate(limits, events), RunHistory(limits, events))
  {
    if events != [] {
      hide Step, Record, Inv, Fifo, Books;
      var before, e := events[..|events| - 1], events[|events| - 1];
      AlwaysInv(limits, before);
      AlwaysAccounted(limits, before);
      StepKeepsFifo(limits, RunGate(limits, before), RunHistory(limits, before), e);
      StepKeepsBooks(limits, RunGate(limits, before), RunHistory(limits, before), e);
    }
  }

  // Over every interleaving: the counter is the number of holders and within bounds, a queue means a
  // full gate, grants are in order of arrival, and slots are taken and released once each.
  lemma GateContract(limits: Limits, events: seq<Event>)
    ensures
      var g, h := RunGate(limits, events), RunHistory(limits, events);
      && 0 <= g.active == |Holders(g.calls)| <= limits.capacity
      && (g.queue != [] ==> g.active == limits.capacity)
      && |g.queue| <= limits.maxQueue
      && h.grants + g.queue == Live(h.arrivals, h.cancelled)
      && forall id: nat :: h.released[id] <= h.acquired[id] <= 1 && (id in Holders(g.calls) <==> h.released[id] < h.acquired[id])
  {
    AlwaysInv(limits, events);
    AlwaysAccounted(limits, events);
  }

  // ----- no slot leaks -----

  function RunFrom(limits: Limits, g: Gate, events: seq<Event>): Gate
    decreases |events|
  {
    if events == [] then g
    else Step(limits, RunFrom(limits, g, events[..|events| - 1]), events[|events| - 1])
  }

  // How far a slot holder with its grace timer started has come.
  function Progress(g: Gate, id: nat): int {
    if id !in g.calls then 0
    else if g.calls[id] == Running(true) then 1
    else if g.calls[id].Settled? then 2
    else if g.calls[id].Released? then 3
    else 0
  }

  lemma ProgressStep(limits: Limits, g: Gate, e: Event, id: nat)
    requires Inv(limits, g) && Progress(g, id) >= 1
    ensures Inv(limits, Step(limits, g, e)) && Progress(Step(limits, g, e), id) >= Progress(g, id)
  {
    hide Inv, Without;
    WaitersWait(limits, g);
    StepKeepsInv(limits, g, e);
  }

  lemma {:induction false} ProgressKept(limits: Limits, g: Gate, events: seq<Event>, id: nat)
    requires Inv(limits, g) && Progress(g, id) >= 1
    ensures Inv(limits, RunFrom(limits, g, events)) && Progress(RunFrom(limits, g, events), id) >= Progress(g, id)
    decreases |events|
  {
    if events != [] {
      hide Inv, Step, Progress;
      ProgressKept(limits, g, events[..|events| - 1], id);
      ProgressStep(limits, RunFrom(limits, g, events[..|events| - 1]), events[|events| - 1], id);
    }
  }

  lemma WaitersWait(limits: Limits, g: Gate)
    requires Inv(limits, g)
    ensures g.queue != [] ==> g.queue[0] in g.calls && g.calls[g.queue[0]].Waiting?
  {
    assert g.queue != [] ==> g.queue[0] in g.queue;
  }

  // A task that never settles still gives its slot back: from the abort of its signal on, the grace timer
  // and the finally block release it, whatever else happens before, between and after.
  lemma AbortedSlotIsReclaimed(limits: Limits, g: Gate, id: nat, before: seq<Event>, between: seq<Event>, after: seq<Event>)
    requires Inv(limits, g) && id in g.calls && g.calls[id].Running?
    ensures
      var aborted := Step(limits, g, Abort(id));
      var expired := Step(limits, RunFrom(limits, aborted, before), Grace(id));
      var finished := Step(limits, RunFrom(limits, expired, between), Finish(id));
      var last := RunFrom(limits, finished, after);
      id in last.calls && last.calls[id].Released?
  {
    hide Inv, RunFrom;
    var aborted := Step(limits, g, Abort(id));
    StepKeepsInv(limits, g, Abort(id));
    var waited := RunFrom(limits, aborted, before);
    ProgressKept(limits, aborted, before, id);
    var expired := Step(limits, waited, Grace(id));
    StepKeepsInv(limits, waited, Grace(id));
    FinishedIsReleased(limits, expired, id, between, after);
  }

  // A task that settles gives its slot back through its finally block.
  lemma SettledSlotIsReturned(limits: Limits, g: Gate, id: nat, between: seq<Event>, after: seq<Event>)
    requires Inv(limits, g) && id in g.calls && g.calls[id].Running?
    ensures
      var settled := Step(limits, g, Settle(id));
      var finished := Step(limits, RunFrom(limits, settled, between), Finish(id));
      var last := RunFrom(limits, finished, after);
      id in last.calls && last.calls[id].Released?
  {
    hide Inv, RunFrom;
    StepKeepsInv(limits, g, Settle(id));
    FinishedIsReleased(limits, Step(limits, g, Settle(id)), id, between, after);
  }

  lemma FinishedIsReleased(limits: Limits, g: Gate, id: nat, between: seq<Event>, after: seq<Event>)
    requires Inv(limits, g) && Progress(g, id) >= 2
    ensures
      var finished := Step(limits, RunFrom(limits, g, between), Finish(id));
      var last := RunFrom(limits, finished, after);
      id in last.calls && last.calls[id].Released?
  {
    hide Inv, RunFrom;
    ProgressKept(limits, g, between, id);
    var ready := RunFrom(limits, g, between);
    var finished := Step(limits, ready, Finish(id));
    StepKeepsInv(limits, ready, Finish(id));
    WaitersWait(limits, ready);
    ProgressKept(limits, finished, after, id);
  }

  // A call that is granted a slot runs once it resumes.
  lemma GrantedCallRuns(limits: Limits, g: Gate, id: nat)
    requires Inv(limits, g) && id in g.calls && g.calls[id] == Granted(false)
    ensures var resumed := Step(limits, g, Resume(id)); id in resumed.calls && resumed.calls[id].Running?
  {
  }

  // A call aborted in the queue leaves it at once, to the others' gain of a place, and never runs.
  lemma AbortedWaiterLeaves(limits: Limits, g: Gate, id: nat, events: seq<Event>)
    requires Inv(limits, g) && id in g.calls && g.calls[id].Waiting?
    ensures
      var left := Step(limits, g, Abort(id));
      && |left.queue| == |g.queue| - 1 && left.active == g.active
      && var last := RunFrom(limits, left, events);
         id in last.calls && last.calls[id].Cancelled? && id !in last.queue
  {
    hide Inv, RunFrom;
    var left := Step(limits, g, Abort(id));
    QueueFacts(limits, g, id);
    WithoutFacts(g.queue, id);
    StepKeepsInv(limits, g, Abort(id));
    OverIsFinal(limits, left, events, id);
    QueueFacts(limits, RunFrom(limits, left, events), id);
  }

  lemma QueueFacts(limits: Limits, g: Gate, id: nat)
    requires Inv(limits, g)
    ensures Distinct(g.queue) && (id in g.queue <==> id in g.calls && g.calls[id].Waiting?)
  {
  }

  // The head of the queue takes over the slot of a call that finishes; with nobody waiting the slot is free.
  lemma SlotPassesOn(limits: Limits, g: Gate, id: nat)
    requires Inv(limits, g) && id in g.calls && g.calls[id].Settled?
    ensures
      var next := Step(limits, g, Finish(id));
      if g.queue == [] then next.active == g.active - 1 && next.queue == []
      else next.active == g.active && next.queue == g.queue[1..]
           && g.queue[0] in next.calls && next.calls[g.queue[0]] == Granted(false)
  {
    hide Inv;
    WaitersWait(limits, g);
  }

  // The number of reclaimed slots goes up by one exactly when a grace timer that was started fires.
  lemma AbandonedCountsReclaims(limits: Limits, g: Gate, e: Event)
    ensures Step(limits, g, e).abandoned ==
      g.abandoned + if e.Grace? && e.id in g.calls && g.calls[e.id] == Running(true) then 1 else 0
  {
  }

  // A call that was refused, cancelled or has released its slot stays so.
  predicate Over(p: Phase) {
    p.Refused? || p.Cancelled? || p.Released?
  }

  lemma OverStep(limits: Limits, g: Gate, e: Event, id: nat)
    requires Inv(limits, g) && id in g.calls && Over(g.calls[id])
    ensures var next := Step(limits, g, e); id in next.calls && next.calls[id] == g.calls[id]
  {
    hide Inv, Without;
    WaitersWait(limits, g);
  }

  lemma {:induction false} OverIsFinal(limits: Limits, g: Gate, events: seq<Event>, id: nat)
    requires Inv(limits, g) && id in g.calls && Over(g.calls[id])
    ensures var last := RunFrom(limits, g, events);
      Inv(limits, last) && id in last.calls && last.calls[id] == g.calls[id]
    decreases |events|
  {
    if events != [] {
      hide Inv, Step;
      var before := RunFrom(limits, g, events[..|events| - 1]);
      OverIsFinal(limits, g, events[..|events| - 1], id);
      OverStep(limits, before, events[|events| - 1], id);
      StepKeepsInv(limits, before, events[|events| - 1]);
    }
  }

  // A call whose signal aborts after the grant and before it resumes gives the slot back on resuming,
  // whatever happens in between; its task is never started.
  lemma AbortedGrantIsReturned(limits: Limits, g: Gate, id: nat, between: seq<Event>)
    requires Inv(limits, g) && id in g.calls && g.calls[id].Granted?
    ensures
      var ready := RunFrom(limits, Step(limits, g, Abort(id)), between);
      var resumed := Step(limits, ready, Resume(id));
      id in resumed.calls && resumed.calls[id].Released?
  {
    hide Inv, RunFrom;
    var aborted := Step(limits, g, Abort(id));
    StepKeepsInv(limits, g, Abort(id));
    var ready := RunFrom(limits, aborted, between);
    AbortedGrantKept(limits, aborted, between, id);
    WaitersWait(limits, ready);
  }

  ghost predicate Returning(g: Gate, id: nat) {
    id in g.calls && (g.calls[id] == Granted(true) || g.calls[id].Released?)
  }

  lemma ReturningStep(limits: Limits, g: Gate, e: Event, id: nat)
    requires Inv(limits, g) && Returning(g, id)
    ensures Returning(Step(limits, g, e), id)
  {
    hide Inv, Without;
    WaitersWait(limits, g);
  }

  lemma {:induction false} AbortedGrantKept(limits: Limits, g: Gate, events: seq<Event>, id: nat)
    requires Inv(limits, g) && Returning(g, id)
    ensures Inv(limits, RunFrom(limits, g, events)) && Returning(RunFrom(limits, g, events), id)
    decreases |events|
  {
    if events != [] {
      hide Inv, Step, Returning;
      var before := RunFrom(limits, g, events[..|events| - 1]);
      AbortedGrantKept(limits, g, events[..|events| - 1], id);
      ReturningStep(limits, before, events[|events| - 1], id);
      StepKeepsInv(limits, before, events[|events| - 1]);
    }
  }

  // A new call is turned away as busy exactly when every slot and every place in the queue is taken,
  // starts at once exactly when a slot is free, and otherwise joins the end of the queue; one whose signal
  // has aborted already takes neither.
  lemma BusyExactlyWhenFull(limits: Limits, g: Gate, id: nat, aborted: bool)
    requires Inv(limits, g) && id !in g.calls
    ensures
      var next := Step(limits, g, Start(id, aborted));
      && id in next.calls
      && (next.calls[id] == Refused(true) <==> !aborted && |Holders(g.calls)| == limits.capacity && |g.queue| == limits.maxQueue)
      && (next.calls[id].Running? <==> !aborted && |Holders(g.calls)| < limits.capacity)
      && (next.calls[id].Waiting? <==> !aborted && |Holders(g.calls)| == limits.capacity && |g.queue| < limits.maxQueue)
      && (next.calls[id] == Refused(false) <==> aborted)
      && next.queue == (if next.calls[id].Waiting? then g.queue + [id] else g.queue)
      && next.active == (if next.calls[id].Running? then g.active + 1 else g.active)
  {
    hide Holders;
  }

  // ----- the object -----

  class WorkGate {
    const limits: Limits
    var active: int
    var abandoned: nat
    var queue: seq<nat>
    // What each call's closure and promise have come to.
    var calls: map<nat, Phase>

    function State(): Gate reads this {
      Gate(active, abandoned, queue, calls)
    }

    constructor (capacity: nat, maxQueue: nat)
      ensures limits == Limits(capacity, maxQueue) && State() == EMPTY
    {
      limits := Limits(capacity, maxQueue);
      active, abandoned, queue, calls := 0, 0, [], map[];
    }

    // Up to the first await: refuse, take a slot, or join the queue.
    method Start(id: nat, aborted: bool)
      requires id !in calls
      modifies this
      ensures State() == Step(limits, old(State()), Event.Start(id, aborted))
    {
      if aborted {
        calls := calls[id := Refused(false)];
      } else if active >= limits.capacity {
        if |queue| >= limits.maxQueue {
          calls := calls[id := Refused(true)];
        } else {
          queue := queue + [id];
          calls := calls[id := Waiting];
        }
      } else {
        active := active + 1;
        calls := calls[id := Running(false)];
      }
    }

    // queue.indexOf(entry), then queue.splice(index, 1).
    method Remove(id: nat)
      modifies `queue
      ensures queue == Without(old(queue), id)
    {
      var index := 0;
      while index < |queue| && queue[index] != id
        invariant 0 <= index <= |queue| && queue == old(queue) && id !in queue[..index]
      {
        index := index + 1;
      }
      WithoutOthers(queue[..index], queue[index..], id);
      assert queue[..index] + queue[index..] == queue;
      if index < |queue| {
        queue := queue[..index] + queue[index + 1..];
      }
    }

    // The abort listener the call has installed at its current await, if any.
    method Abort(id: nat)
      requires id in calls
      modifies this
      ensures State() == Step(limits, old(State()), Event.Abort(id))
    {
      match calls[id]
      case Waiting =>
        Remove(id);
        calls := calls[id := Cancelled];
      case Granted(_) => calls := calls[id := Granted(true)];
      case Running(_) => calls := calls[id := Running(true)];
      case _ =>
    }

    // A granted call picks up after its await.
    method Resume(id: nat)
      requires id in calls && calls[id].Granted?
      modifies this
      ensures State() == Step(limits, old(State()), Event.Resume(id))
    {
      if calls[id].aborted {
        Finally(id);
      } else {
        calls := calls[id := Running(false)];
      }
    }

    method Settle(id: nat)
      requires id in calls
      modifies this
      ensures State() == Step(limits, old(State()), Event.Settle(id))
    {
      if calls[id].Running? {
        calls := calls[id := Settled];
      }
    }

    // The grace timer: the slot's task never settled after its signal aborted.
    method Grace(id: nat)
      requires id in calls && calls[id] == Running(true)
      modifies this
      ensures State() == Step(limits, old(State()), Event.Grace(id))
    {
      abandoned := abandoned + 1;
      calls := calls[id := Settled];
    }

    method Finish(id: nat)
      requires id in calls && calls[id].Settled?
      modifies this
      ensures State() == Step(limits, old(State()), Event.Finish(id))
    {
      Finally(id);
    }

    method Finally(id: nat)
      modifies this
      ensures State() == Free(old(State()), id)
    {
      calls := calls[id := Released];
      if |queue| > 0 {
        var next := queue[0];
        queue := queue[1..];
        calls := calls[next := Granted(false)];
      } else {
        active := active - 1;
      }
    }
  }

  // ----- the RPC budget of one quote -----

  // remaining goes below zero once, on the call that overruns; reason is the abort signal's.
  class Budget {
    var remaining: int
    var reason: Option<string>

    function State(): Spending reads this {
      Spending(remaining, reason)
    }

    constructor (rpcCalls: nat)
      ensures State() == Spending(rpcCalls, None)
    {
      remaining, reason := rpcCalls, None;
    }

    // Only the first abort sets the signal's reason.
    method Abort(why: string)
      modifies this
      ensures State() == Spend(old(State()), Interrupt(why))
    {
      if reason.None? {
        reason := Some(why);
      }
    }

    method SpendRpcCall() returns (allowed: bool)
      modifies this
      ensures State() == Spend(old(State()), Call) && allowed == Allowed(old(State()))
    {
      if reason.Some? { return false; }
      remaining := remaining - 1;
      if remaining < 0 {
        Abort("rpc_budget_exceeded");
        return false;
      }
      return true;
    }
  }

  datatype Spending = Spending(remaining: int, reason: Option<string>)
  datatype Use = Call | Interrupt(why: string)

  predicate Allowed(b: Spending) {
    b.reason.None? && b.remaining > 0
  }

  function Spend(b: Spending, u: Use): Spending {
    if b.reason.Some? then b
    else
      match u
      case Interrupt(why) => b.(reason := Some(why))
      case Call => Spending(b.remaining - 1, if b.remaining > 0 then None else Some("rpc_budget_exceeded"))
  }

  function SpendAll(b: Spending, uses: seq<Use>): Spending
    decreases |uses|
  {
    if uses == [] then b else Spend(SpendAll(b, uses[..|uses| - 1]), uses[|uses| - 1])
  }

  // How many calls got through.
  function CallsAllowed(b: Spending, uses: seq<Use>): nat
    decreases |uses|
  {
    if uses == [] then 0
    else
      var before := uses[..|uses| - 1];
      CallsAllowed(b, before) + if uses[|uses| - 1].Call? && Allowed(SpendAll(b, before)) then 1 else 0
  }

  function CallsMade(uses: seq<Use>): nat {
    if uses == [] then 0 else CallsMade(uses[..|uses| - 1]) + if uses[|uses| - 1].Call? then 1 else 0
  }

  // A quote spends its budget to the last call and not one more: as long as nothing else aborts it,
  // the calls that get through are the smaller of those made and those budgeted; an overrun aborts
  // the quote, and then exactly the budget was spent.
  lemma {:induction false} BudgetContract(rpcCalls: nat, uses: seq<Use>)
    ensures
      var b := SpendAll(Spending(rpcCalls, None), uses);
      var allowed := CallsAllowed(Spending(rpcCalls, None), uses);
      && allowed <= rpcCalls
      && (b.reason.None? ==> allowed == CallsMade(uses) && b.remaining == rpcCalls - allowed)
      && ((forall u :: u in uses ==> u.Call?) ==>
           (allowed == if CallsMade(uses) < rpcCalls then CallsMade(uses) else rpcCalls)
           && (b.reason.Some? <==> CallsMade(uses) > rpcCalls)
           && (b.reason.Some? ==> b.reason.value == "rpc_budget_exceeded"))
  {
    if uses != [] {
      BudgetContract(rpcCalls, uses[..|uses| - 1]);
    }
  }
}
