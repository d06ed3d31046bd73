// Batched reads: fixed-size batches, a pool of workers sharing a counter, and bisection on gas failures.
module Multicall {
  import opened Arith
  import opened Results
  import opened Sequences

  datatype Call = Call(target: string, callData: string)
  datatype CallResult = CallResult(success: bool, returnData: string)

  // What one eth_call comes to: answers, a failure that halving may cure, or any other error.
  datatype Answer = Answered(results: seq<CallResult>) | GasCeiling | Refused(error: string)
  type Node = seq<Call> -> Answer

  const GAVE_UP := CallResult(false, "0x")

  function Map(alone: Call -> CallResult, calls: seq<Call>): (r: seq<CallResult>)
    ensures |r| == |calls| && forall i :: 0 <= i < |calls| ==> r[i] == alone(calls[i])
  {
    seq(|calls|, i requires 0 <= i < |calls| => alone(calls[i]))
  }

  // A read at a fixed block: a batch that is answered is answered call by call, and a call that hits
  // the gas ceiling all by itself is the one kind given up on.
  ghost predicate Answers(node: Node, alone: Call -> CallResult) {
    && (forall batch :: node(batch).Answered? ==> node(batch).results == Map(alone, batch))
    && (forall call :: node([call]).GasCeiling? ==> alone(call) == CallResult(false, "0x"))
  }

  function Middle(calls: seq<Call>): (m: nat)
    ensures |calls| >= 2 ==> 0 < m < |calls|
    ensures m <= |calls|
  {
    (|calls| + 1) / 2
  }

  // ----- bisection -----

  // The requests callBatch sends; both halves are sent whatever becomes of either.
  function Requests(node: Node, calls: seq<Call>): seq<seq<Call>>
    decreases |calls|
  {
    if calls == [] then []
    else if node(calls).GasCeiling? && |calls| > 1 then
      [calls] + Requests(node, calls[..Middle(calls)]) + Requests(node, calls[Middle(calls)..])
    else [calls]
  }

  method CallBatch(node: Node, calls: seq<Call>) returns (r: Result<seq<CallResult>>)
    ensures BatchOutcome(node, calls, r)
    decreases |calls|
  {
    hide BatchOutcome;
    WholeBatch(node, calls);
    if |calls| == 0 { return Success([]); }
    match node(calls)
    case Answered(results) => return Success(results);
    case Refused(error) => return Failure(error);
    case GasCeiling =>
      if |calls| == 1 { return Success([GAVE_UP]); }
      var middle := Middle(calls);
      var left := CallBatch(node, calls[..middle]);
      var right := CallBatch(node, calls[middle..]);
      JoinHalves(node, calls, left, right);
      if left.Success? && right.Success? {
        return Success(left.value + right.value);
      }
      // Promise.all rejects with whichever half failed first
      if left.Success? { return right; }
      if right.Success? { return left; }
      if * { return left; } else { return right; }
  }

  lemma JoinHalves(node: Node, calls: seq<Call>, left: Result<seq<CallResult>>, right: Result<seq<CallResult>>)
    requires |calls| > 1 && node(calls).GasCeiling?
    requires BatchOutcome(node, calls[..Middle(calls)], left) && BatchOutcome(node, calls[Middle(calls)..], right)
    ensures left.Success? && right.Success? ==> BatchOutcome(node, calls, Success(left.value + right.value))
    ensures left.Failure? ==> BatchOutcome(node, calls, left)
    ensures right.Failure? ==> BatchOutcome(node, calls, right)
  {
  }

  lemma WholeBatch(node: Node, calls: seq<Call>)
    ensures calls == [] ==> BatchOutcome(node, calls, Success([]))
    ensures calls != [] && node(calls).Answered? ==> BatchOutcome(node, calls, Success(node(calls).results))
    ensures calls != [] && node(calls).Refused? ==> BatchOutcome(node, calls, Failure(node(calls).error))
    ensures |calls| == 1 && node(calls).GasCeiling? ==> BatchOutcome(node, calls, Success([GAVE_UP]))
  {
  }

  // What callBatch may return, whichever of two failing halves fails first.
  ghost predicate BatchOutcome(node: Node, calls: seq<Call>, r: Result<seq<CallResult>>)
    decreases |calls|
  {
    if calls == [] then r == Success([])
    else
      match node(calls)
      case Answered(results) => r == Success(results)
      case Refused(error) => r == Failure(error)
      case GasCeiling =>
        if |calls| == 1 then r == Success([GAVE_UP])
        else exists left, right ::
          && BatchOutcome(node, calls[..Middle(calls)], left)
          && BatchOutcome(node, calls[Middle(calls)..], right)
          && (if left.Success? && right.Success? then r == Success(left.value + right.value)
              else r.Failure? && (r == left || r == right))
  }

  lemma {:induction false} SplitOutcome(node: Node, calls: seq<Call>, r: Result<seq<CallResult>>)
    returns (left: Result<seq<CallResult>>, right: Result<seq<CallResult>>)
    requires BatchOutcome(node, calls, r) && |calls| > 1 && node(calls).GasCeiling?
    ensures BatchOutcome(node, calls[..Middle(calls)], left) && BatchOutcome(node, calls[Middle(calls)..], right)
    ensures if left.Success? && right.Success? then r == Success(left.value + right.value)
            else r.Failure? && (r == left || r == right)
  {
    left, right :|
      && BatchOutcome(node, calls[..Middle(calls)], left)
      && BatchOutcome(node, calls[Middle(calls)..], right)
      && (if left.Success? && right.Success? then r == Success(left.value + right.value)
          else r.Failure? && (r == left || r == right));
  }

  // Bisection answers exactly as asking each call by itself would: only calls that hit the ceiling
  // alone are given up on, in call order and at equal length.
  lemma {:induction false} BisectionIsPerCall(node: Node, alone: Call -> CallResult, calls: seq<Call>, r: Result<seq<CallResult>>)
    requires Answers(node, alone) && BatchOutcome(node, calls, r) && r.Success?
    ensures r.value == Map(alone, calls)
    ensures forall i :: 0 <= i < |calls| && node([calls[i]]).GasCeiling? ==> !r.value[i].success && r.value[i].returnData == "0x"
    decreases |calls|
  {
    if |calls| > 1 && node(calls).GasCeiling? {
      hide BatchOutcome;
      var left, right := SplitOutcome(node, calls, r);
      BisectionIsPerCall(node, alone, calls[..Middle(calls)], left);
      BisectionIsPerCall(node, alone, calls[Middle(calls)..], right);
      assert calls == calls[..Middle(calls)] + calls[Middle(calls)..];
    } else if |calls| == 1 && node(calls).GasCeiling? {
      assert calls == [calls[0]];
    }
  }

  // It fails exactly when some request it sent was refused, with the error of such a request.
  lemma {:induction false} OnlyRefusalsPropagate(node: Node, calls: seq<Call>, r: Result<seq<CallResult>>)
    requires BatchOutcome(node, calls, r)
    ensures r.Failure? <==> exists request :: request in Requests(node, calls) && node(request).Refused?
    ensures r.Failure? ==> exists request :: request in Requests(node, calls) && node(request) == Refused(r.error)
    decreases |calls|
  {
    if |calls| > 1 && node(calls).GasCeiling? {
      hide BatchOutcome;
      var left, right := SplitOutcome(node, calls, r);
      OnlyRefusalsPropagate(node, calls[..Middle(calls)], left);
      OnlyRefusalsPropagate(node, calls[Middle(calls)..], right);
    } else if calls != [] {
      assert Requests(node, calls) == [calls];
      assert calls in Requests(node, calls);
    }
  }

  // At most 2n - 1 requests for a batch of n, whatever the node does.
  lemma {:induction false} RequestBound(node: Node, calls: seq<Call>)
    ensures |Requests(node, calls)| <= if calls == [] then 0 else 2 * |calls| - 1
    decreases |calls|
  {
    if |calls| > 1 && node(calls).GasCeiling? {
      RequestBound(node, calls[..Middle(calls)]);
      RequestBound(node, calls[Middle(calls)..]);
    }
  }

  // The bound is met: a node that refuses gas to every batch makes exactly 2n - 1 requests.
  lemma {:induction false} BoundIsMet(node: Node, calls: seq<Call>)
    requires calls != [] && forall batch :: node(batch).GasCeiling?
    ensures |Requests(node, calls)| == 2 * |calls| - 1
    decreases |calls|
  {
    if |calls| > 1 {
      BoundIsMet(node, calls[..Middle(calls)]);
      BoundIsMet(node, calls[Middle(calls)..]);
    }
  }

  // Both halves are asked at once, so a batch takes as many rounds as the deeper of its halves and one.
  function Rounds(node: Node, calls: seq<Call>): nat
    decreases |calls|
  {
    if calls == [] then 0
    else if node(calls).GasCeiling? && |calls| > 1 then
      var left, right := Rounds(node, calls[..Middle(calls)]), Rounds(node, calls[Middle(calls)..]);
      1 + if left < right then right else left
    else 1
  }

  // Halving takes no more rounds than there are doublings up to the size of the batch, and one.
  lemma {:induction false} RoundsAreFew(node: Node, calls: seq<Call>, k: nat)
    requires |calls| <= Pow2(k)
    ensures Rounds(node, calls) <= k + 1
    decreases k
  {
    if |calls| > 1 && node(calls).GasCeiling? {
      assert k > 0 && Pow2(k) == 2 * Pow2(k - 1);
      RoundsAreFew(node, calls[..Middle(calls)], k - 1);
      RoundsAreFew(node, calls[Middle(calls)..], k - 1);
    }
  }

  // A node that refuses gas to every batch takes exactly that many.
  lemma {:induction false} RoundsAreMet(node: Node, calls: seq<Call>, k: nat)
    requires |calls| == Pow2(k) && forall batch :: node(batch).GasCeiling?
    ensures Rounds(node, calls) == k + 1
    decreases k
  {
    if k > 0 {
      assert Pow2(k) == 2 * Pow2(k - 1);
      RoundsAreMet(node, calls[..Middle(calls)], k - 1);
      RoundsAreMet(node, calls[Middle(calls)..], k - 1);
    } else {
      assert |calls| == 1;
    }
  }

  // ----- batches -----

  lemma BatchNext(batches: seq<seq<Call>>, calls: seq<Call>, i: nat, end: nat)
    requires i <= end <= |calls| && Flat(batches) == calls[..i]
    ensures Flat(batches + [calls[i..end]]) == calls[..end]
  {
    FlatAppend(batches, calls[i..end]);
    assert calls[..i] + calls[i..end] == calls[..end];
  }

  method Batches(calls: seq<Call>, batchSize: nat) returns (batches: seq<seq<Call>>)
    requires batchSize >= 1
    ensures Flat(batches) == calls
    ensures forall b :: b in batches ==> 1 <= |b| <= batchSize
    ensures forall k :: 0 <= k < |batches| - 1 ==> |batches[k]| == batchSize
  {
    hide Flat;
    batches := [];
    var i := 0;
    ghost var cut := 0;
    assert Flat<Call>([]) == calls[..0] by { NothingFlat(); }
    while i < |calls|
      invariant cut == if i < |calls| then i else |calls|
      invariant 0 <= i && Flat(batches) == calls[..cut]
      invariant forall k :: 0 <= k < |batches| ==> 1 <= |batches[k]| <= batchSize
      invariant forall k :: 0 <= k < |batches| - 1 ==> |batches[k]| == batchSize
      invariant i < |calls| && |batches| > 0 ==> |batches[|batches| - 1]| == batchSize
      decreases |calls| - i
    {
      var end := if i + batchSize < |calls| then i + batchSize else |calls|;
      BatchNext(batches, calls, i, end);
      batches := batches + [calls[i..end]];
      i := i + batchSize;
      cut := end;
    }
    assert calls[..cut] == calls;
  }

  lemma NothingFlat()
    ensures Flat<Call>([]) == []
  {
  }

  // ----- the worker pool -----

  // A worker is about to take the counter, awaits its batch, has returned, or has thrown.
  datatype Worker = Ready | Awaiting(index: nat) | Returned | Threw(error: string)

  datatype Pool = Pool(next: nat, results: seq<Option<seq<CallResult>>>, workers: seq<Worker>, claims: seq<nat>)

  // One step of worker w: take the counter, or come back from its await with an outcome.
  ghost predicate PoolStep(node: Node, batches: seq<seq<Call>>, p: Pool, p': Pool, w: nat) {
    && w < |p.workers| && |p.results| == |batches|
    && match p.workers[w]
       case Ready =>
         if p.next >= |batches| then p' == p.(next := p.next + 1, workers := p.workers[w := Returned])
         else p' == p.(next := p.next + 1, workers := p.workers[w := Awaiting(p.next)], claims := p.claims + [p.next])
       case Awaiting(index) =>
         index < |batches| &&
         exists r :: BatchOutcome(node, batches[index], r) &&
           (match r
            case Success(value) => p' == p.(results := p.results[index := Some(value)], workers := p.workers[w := Ready])
            case Failure(error) => p' == p.(workers := p.workers[w := Threw(error)]))
       case _ => false
  }

  ghost predicate IsRun(node: Node, batches: seq<seq<Call>>, states: seq<Pool>, who: seq<nat>) {
    && |states| == |who| + 1
    && forall k :: 0 <= k < |who| ==> PoolStep(node, batches, states[k], states[k + 1], who[k])
  }

  function Start(batches: nat, workers: nat): Pool {
    Pool(0, seq(batches, _ => None), seq(workers, _ => Ready), [])
  }

  // The counter hands out 0, 1, 2, ... once each.
  ghost predicate Counted(batches: seq<seq<Call>>, p: Pool) {
    && |p.claims| == (if p.next < |batches| then p.next else |batches|)
    && (forall k :: 0 <= k < |p.claims| ==> p.claims[k] == k)
    && (forall w :: 0 <= w < |p.workers| && p.workers[w].Returned? ==> p.next >= |batches|)
  }

  // Each batch in flight has one worker and no result yet.
  ghost predicate Exclusive(batches: seq<seq<Call>>, p: Pool) {
    && |p.results| == |batches|
    && (forall w :: 0 <= w < |p.workers| && p.workers[w].Awaiting? ==>
         p.workers[w].index < |p.claims| && p.workers[w].index < |batches| && p.results[p.workers[w].index].None?)
    && (forall v, w :: 0 <= v < w < |p.workers| && p.workers[v].Awaiting? && p.workers[w].Awaiting? ==>
         p.workers[v].index != p.workers[w].index)
  }

  // What is stored at a position is an outcome of the batch at that position.
  ghost predicate InPlace(node: Node, batches: seq<seq<Call>>, p: Pool) {
    && |p.results| == |batches|
    && forall i :: 0 <= i < |batches| && p.results[i].Some? ==>
         i < |p.claims| && BatchOutcome(node, batches[i], Success(p.results[i].value))
  }

  // Unless a worker threw, a claimed batch without a result is still in some worker's hands.
  ghost predicate NothingLost(batches: seq<seq<Call>>, p: Pool) {
    && |p.results| == |batches|
    && (NoneThrew(p) ==> forall i :: 0 <= i < |p.claims| && i < |batches| && p.results[i].None? ==> AwaitedBy(p, i))
  }

  ghost predicate NoneThrew(p: Pool) {
    forall w :: 0 <= w < |p.workers| ==> !p.workers[w].Threw?
  }

  ghost predicate AwaitedBy(p: Pool, i: nat) {
    exists w :: 0 <= w < |p.workers| && p.workers[w] == Awaiting(i)
  }

  ghost predicate PoolInv(node: Node, batches: seq<seq<Call>>, p: Pool) {
    Counted(batches, p) && Exclusive(batches, p) && InPlace(node, batches, p) && NothingLost(batches, p)
  }

  lemma StepCounted(node: Node, batches: seq<seq<Call>>, p: Pool, p': Pool, w: nat)
    requires PoolInv(node, batches, p) && PoolStep(node, batches, p, p', w)
    ensures Counted(batches, p')
  {
    hide BatchOutcome, NothingLost, InPlace;
  }

  lemma StepExclusive(node: Node, batches: seq<seq<Call>>, p: Pool, p': Pool, w: nat)
    requires PoolInv(node, batches, p) && PoolStep(node, batches, p, p', w)
    ensures Exclusive(batches, p')
  {
    hide BatchOutcome, NothingLost;
  }

  lemma StepInPlace(node: Node, batches: seq<seq<Call>>, p: Pool, p': Pool, w: nat)
    requires PoolInv(node, batches, p) && PoolStep(node, batches, p, p', w)
    ensures InPlace(node, batches, p')
  {
    hide BatchOutcome, NothingLost;
  }

  lemma StepNothingLost(node: Node, batches: seq<seq<Call>>, p: Pool, p': Pool, w: nat)
    requires PoolInv(node, batches, p) && PoolStep(node, batches, p, p', w)
    ensures NothingLost(batches, p')
  {
    hide BatchOutcome, InPlace;
    forall i | NoneThrew(p') && 0 <= i < |p'.claims| && i < |batches| && p'.results[i].None? ensures AwaitedBy(p', i) {
      if i < |p.claims| {
        assert forall v :: 0 <= v < |p.workers| && v != w ==> p'.workers[v] == p.workers[v];
        assert NoneThrew(p);
        var v :| 0 <= v < |p.workers| && p.workers[v] == Awaiting(i);
        assert p'.workers[v] == Awaiting(i);
      } else {
        assert p'.workers[w] == Awaiting(i);
      }
    }
  }

  lemma {:induction false} PoolInvariant(node: Node, batches: seq<seq<Call>>, workers: nat, states: seq<Pool>, who: seq<nat>)
    requires IsRun(node, batches, states, who) && states[0] == Start(|batches|, workers)
    ensures PoolInv(node, batches, states[|who|]) && |states[|who|].workers| == workers
    decreases |who|
  {
    if who != [] {
      hide PoolInv;
      var n := |who| - 1;
      PoolInvariant(node, batches, workers, states[..n + 1], who[..n]);
      assert PoolStep(node, batches, states[n], states[n + 1], who[n]);
      StepKeepsPoolInv(node, batches, states[n], states[n + 1], who[n]);
    }
  }

  lemma StepKeepsPoolInv(node: Node, batches: seq<seq<Call>>, p: Pool, p': Pool, w: nat)
    requires PoolInv(node, batches, p) && PoolStep(node, batches, p, p', w)
    ensures PoolInv(node, batches, p') && |p'.workers| == |p.workers|
  {
    StepCounted(node, batches, p, p', w);
    StepExclusive(node, batches, p, p', w);
    StepInPlace(node, batches, p, p', w);
    StepNothingLost(node, batches, p, p', w);
    hide Counted, Exclusive, InPlace, NothingLost, BatchOutcome;
  }

  // Every interleaving: each batch is claimed at most once, in order, and never by two workers.
  lemma ClaimedOnce(node: Node, batches: seq<seq<Call>>, workers: nat, states: seq<Pool>, who: seq<nat>)
    requires IsRun(node, batches, states, who) && states[0] == Start(|batches|, workers)
    ensures
      var p := states[|who|];
      && (forall k :: 0 <= k < |p.claims| ==> p.claims[k] == k) && |p.claims| <= |batches|
      && forall v, w :: 0 <= v < w < |p.workers| && p.workers[v].Awaiting? && p.workers[w].Awaiting? ==>
           p.workers[v].index != p.workers[w].index
  {
    hide NothingLost, InPlace, BatchOutcome, PoolStep;
    PoolInvariant(node, batches, workers, states, who);
  }

  // results.flat()
  function Collect(results: seq<Option<seq<CallResult>>>): seq<CallResult>
    requires forall i :: 0 <= i < |results| ==> results[i].Some?
  {
    if results == [] then [] else Collect(results[..|results| - 1]) + results[|results| - 1].value
  }

  lemma MapConcat(alone: Call -> CallResult, a: seq<Call>, b: seq<Call>)
    ensures Map(alone, a + b) == Map(alone, a) + Map(alone, b)
  {
  }

  ghost predicate Outcomes(node: Node, batches: seq<seq<Call>>, results: seq<Option<seq<CallResult>>>) {
    && |results| == |batches|
    && (forall i :: 0 <= i < |results| ==> results[i].Some?)
    && forall i :: 0 <= i < |results| ==> BatchOutcome(node, batches[i], Success(results[i].value))
  }

  lemma OutcomesPrefix(node: Node, batches: seq<seq<Call>>, results: seq<Option<seq<CallResult>>>)
    requires Outcomes(node, batches, results) && |results| > 0
    ensures var n := |results| - 1;
      && Outcomes(node, batches[..n], results[..n])
      && results[n].Some? && BatchOutcome(node, batches[n], Success(results[n].value))
  {
    hide BatchOutcome;
  }

  lemma {:induction false} AnswersInOrder(node: Node, alone: Call -> CallResult, batches: seq<seq<Call>>, results: seq<Option<seq<CallResult>>>)
    requires Answers(node, alone) && Outcomes(node, batches, results)
    ensures Collect(results) == Map(alone, Flat(batches))
    decreases |results|
  {
    if results != [] {
      hide BatchOutcome, Answers, Map;
      var n := |results| - 1;
      OutcomesPrefix(node, batches, results);
      FlatAppend(batches[..n], batches[n]);
      assert batches[..n] + [batches[n]] == batches;
      AnswersInOrder(node, alone, batches[..n], results[..n]);
      BisectionIsPerCall(node, alone, batches[n], Success(results[n].value));
      MapConcat(alone, Flat(batches[..n]), batches[n]);
    } else {
      assert Map(alone, []) == [];
    }
  }

  ghost predicate AllReturned(p: Pool) {
    forall w :: 0 <= w < |p.workers| ==> p.workers[w].Returned?
  }

  // A worker only returns when the counter has run out, and nothing claimed is still in its hands.
  lemma ReturnedIsFilled(node: Node, batches: seq<seq<Call>>, p: Pool)
    requires PoolInv(node, batches, p) && AllReturned(p) && (|batches| > 0 ==> |p.workers| > 0)
    ensures |p.results| == |batches| && Outcomes(node, batches, p.results)
  {
    hide BatchOutcome;
    assert |batches| > 0 ==> p.workers[0].Returned?;
    assert NoneThrew(p);
    forall i | 0 <= i < |batches| ensures p.results[i].Some? {
      assert !AwaitedBy(p, i);
    }
  }

  // Once every worker has returned, whatever the interleaving, the results are the per-call answers
  // of all the calls, in call order.
  lemma PoolContract(node: Node, alone: Call -> CallResult, calls: seq<Call>, batches: seq<seq<Call>>, concurrency: nat,
                     states: seq<Pool>, who: seq<nat>)
    requires Answers(node, alone) && Flat(batches) == calls && concurrency >= 1
    requires IsRun(node, batches, states, who)
    requires states[0] == Start(|batches|, if concurrency < |batches| then concurrency else |batches|)
    requires AllReturned(states[|who|])
    ensures forall i :: 0 <= i < |batches| ==> i < |states[|who|].results| && states[|who|].results[i].Some?
    ensures |states[|who|].results| == |batches|
    ensures Collect(states[|who|].results) == Map(alone, calls)
  {
    hide BatchOutcome, PoolStep, PoolInv, AllReturned, Answers, Map, Start;
    var p := states[|who|];
    PoolInvariant(node, batches, if concurrency < |batches| then concurrency else |batches|, states, who);
    ReturnedIsFilled(node, batches, p);
    AnswersInOrder(node, alone, batches, p.results);
  }

  // ----- rejection -----

  // A claimed batch that nobody awaits any more and that came to nothing but an error.
  ghost predicate FailedAt(node: Node, batches: seq<seq<Call>>, p: Pool, i: nat, error: string) {
    && i < |p.claims| && i < |batches| && i < |p.results|
    && p.results[i].None? && !AwaitedBy(p, i) && BatchOutcome(node, batches[i], Failure(error))
  }

  // Workers that threw and batches that failed belong together.
  ghost predicate Thrown(node: Node, batches: seq<seq<Call>>, p: Pool) {
    && |p.results| == |batches|
    && (forall w :: 0 <= w < |p.workers| && p.workers[w].Threw? ==> exists i :: FailedAt(node, batches, p, i, p.workers[w].error))
    && (forall i :: 0 <= i < |p.claims| && i < |batches| && p.results[i].None? && !AwaitedBy(p, i) ==> ThrownFor(node, batches, p, i))
  }

  ghost predicate ThrownFor(node: Node, batches: seq<seq<Call>>, p: Pool, i: nat) {
    exists w :: 0 <= w < |p.workers| && p.workers[w].Threw? && FailedAt(node, batches, p, i, p.workers[w].error)
  }

  // Nobody else takes up or drops another batch, and no result is lost.
  lemma OthersStay(node: Node, batches: seq<seq<Call>>, p: Pool, p': Pool, w: nat, i: nat)
    requires PoolInv(node, batches, p) && PoolStep(node, batches, p, p', w)
    requires i < |p.claims| && i < |batches| && p.workers[w] != Awaiting(i)
    ensures AwaitedBy(p', i) <==> AwaitedBy(p, i)
    ensures |p.results| == |p'.results| == |batches| && p'.results[i] == p.results[i] && i < |p'.claims|
  {
    hide BatchOutcome, NothingLost, InPlace, Exclusive;
    StepCounted(node, batches, p, p', w);
    if AwaitedBy(p, i) {
      var v :| 0 <= v < |p.workers| && p.workers[v] == Awaiting(i);
      assert p'.workers[v] == Awaiting(i);
    }
    if AwaitedBy(p', i) {
      var v :| 0 <= v < |p'.workers| && p'.workers[v] == Awaiting(i);
      assert p.workers[v] == Awaiting(i);
    }
  }

  lemma FailedStays(node: Node, batches: seq<seq<Call>>, p: Pool, p': Pool, w: nat, i: nat, error: string)
    requires PoolInv(node, batches, p) && PoolStep(node, batches, p, p', w) && FailedAt(node, batches, p, i, error)
    ensures FailedAt(node, batches, p', i, error)
  {
    hide BatchOutcome, PoolInv, PoolStep;
    assert w < |p.workers| by { StepsAreWorkers(node, batches, p, p', w); }
    OthersStay(node, batches, p, p', w, i);
  }

  lemma StepsAreWorkers(node: Node, batches: seq<seq<Call>>, p: Pool, p': Pool, w: nat)
    requires PoolStep(node, batches, p, p', w)
    ensures w < |p.workers| == |p'.workers| && forall v :: 0 <= v < |p.workers| && v != w ==> p'.workers[v] == p.workers[v]
    ensures !p.workers[w].Threw?
  {
    hide BatchOutcome;
  }

  // A worker that comes back from its batch throws exactly if the batch has no result then.
  lemma ComesBack(node: Node, batches: seq<seq<Call>>, p: Pool, p': Pool, w: nat, i: nat)
    requires PoolInv(node, batches, p) && PoolStep(node, batches, p, p', w) && p.workers[w] == Awaiting(i)
    ensures i < |batches| == |p'.results| && i < |p'.claims| && !AwaitedBy(p', i)
    ensures p'.results[i].None? ==> p'.workers[w].Threw?
    ensures p'.workers[w].Threw? ==> FailedAt(node, batches, p', i, p'.workers[w].error)
  {
    hide BatchOutcome, NothingLost, InPlace, Counted;
    assert p'.workers[w] != Awaiting(i);
    forall v | 0 <= v < |p'.workers| ensures p'.workers[v] != Awaiting(i) {
      if v != w { assert p'.workers[v] == p.workers[v]; }
    }
  }

  lemma NewClaimIsAwaited(node: Node, batches: seq<seq<Call>>, p: Pool, p': Pool, w: nat, i: nat)
    requires PoolInv(node, batches, p) && PoolStep(node, batches, p, p', w)
    requires |p.claims| <= i < |p'.claims| && i < |batches|
    ensures AwaitedBy(p', i)
  {
    hide BatchOutcome, NothingLost, InPlace, Exclusive;
    assert p'.workers[w] == Awaiting(i);
  }

  lemma StepThrown(node: Node, batches: seq<seq<Call>>, p: Pool, p': Pool, w: nat)
    requires PoolInv(node, batches, p) && PoolStep(node, batches, p, p', w) && Thrown(node, batches, p)
    ensures Thrown(node, batches, p')
  {
    hide BatchOutcome, PoolInv, FailedAt, AwaitedBy;
    StepsAreWorkers(node, batches, p, p', w);
    ResultsKept(node, batches, p, p', w);
    hide PoolStep;
    forall v | 0 <= v < |p'.workers| && p'.workers[v].Threw? ensures exists i :: FailedAt(node, batches, p', i, p'.workers[v].error) {
      if v != w {
        var i :| FailedAt(node, batches, p, i, p.workers[v].error);
        FailedStays(node, batches, p, p', w, i, p.workers[v].error);
      } else {
        var i := ThrewFrom(node, batches, p, p', w);
        ComesBack(node, batches, p, p', w, i);
      }
    }
    forall i | 0 <= i < |p'.claims| && i < |batches| && p'.results[i].None? && !AwaitedBy(p', i) ensures ThrownFor(node, batches, p', i) {
      if i >= |p.claims| {
        NewClaimIsAwaited(node, batches, p, p', w, i);
      } else if p.workers[w] == Awaiting(i) {
        ComesBack(node, batches, p, p', w, i);
      } else {
        OthersStay(node, batches, p, p', w, i);
        var v :| 0 <= v < |p.workers| && p.workers[v].Threw? && FailedAt(node, batches, p, i, p.workers[v].error);
        FailedStays(node, batches, p, p', w, i, p.workers[v].error);
        assert p'.workers[v] == p.workers[v];
      }
    }
  }

  lemma ResultsKept(node: Node, batches: seq<seq<Call>>, p: Pool, p': Pool, w: nat)
    requires PoolStep(node, batches, p, p', w)
    ensures |p'.results| == |p.results| == |batches|
  {
    hide BatchOutcome;
  }

  lemma ThrewFrom(node: Node, batches: seq<seq<Call>>, p: Pool, p': Pool, w: nat) returns (i: nat)
    requires PoolStep(node, batches, p, p', w) && p'.workers[w].Threw?
    ensures p.workers[w] == Awaiting(i)
  {
    hide BatchOutcome;
    i := p.workers[w].index;
  }

  lemma {:induction false} ThrownInvariant(node: Node, batches: seq<seq<Call>>, workers: nat, states: seq<Pool>, who: seq<nat>)
    requires IsRun(node, batches, states, who) && states[0] == Start(|batches|, workers)
    ensures Thrown(node, batches, states[|who|])
    decreases |who|
  {
    hide PoolInv, BatchOutcome;
    if who != [] {
      hide Thrown;
      var n := |who| - 1;
      PoolInvariant(node, batches, workers, states[..n + 1], who[..n]);
      ThrownInvariant(node, batches, workers, states[..n + 1], who[..n]);
      assert PoolStep(node, batches, states[n], states[n + 1], who[n]);
      StepThrown(node, batches, states[n], states[n + 1], who[n]);
    }
  }

  // A batch no worker is busy with any more, of whose requests some was refused.
  ghost predicate RefusedBatch(node: Node, batches: seq<seq<Call>>, p: Pool, i: nat) {
    && i < |p.claims| && i < |batches| && !AwaitedBy(p, i)
    && exists request :: request in Requests(node, batches[i]) && node(request).Refused?
  }

  ghost predicate RefusedWith(node: Node, batches: seq<seq<Call>>, p: Pool, i: nat, error: string) {
    && RefusedBatch(node, batches, p, i)
    && exists request :: request in Requests(node, batches[i]) && node(request) == Refused(error)
  }

  // Whatever the interleaving, a worker has thrown, which rejects the whole call, if and only if a
  // request of some batch that has come back was refused; and what it threw is such a refusal.
  lemma OnlyRefusalsReject(node: Node, batches: seq<seq<Call>>, workers: nat, states: seq<Pool>, who: seq<nat>)
    requires IsRun(node, batches, states, who) && states[0] == Start(|batches|, workers)
    ensures
      var p := states[|who|];
      && (!NoneThrew(p) <==> exists i: nat :: RefusedBatch(node, batches, p, i))
      && forall w :: 0 <= w < |p.workers| && p.workers[w].Threw? ==>
           exists i: nat :: RefusedWith(node, batches, p, i, p.workers[w].error)
  {
    hide BatchOutcome, PoolStep, PoolInv, Thrown, Start, Requests, AwaitedBy, RefusedBatch;
    var p := states[|who|];
    PoolInvariant(node, batches, workers, states, who);
    ThrownInvariant(node, batches, workers, states, who);
    forall w | 0 <= w < |p.workers| && p.workers[w].Threw?
      ensures exists i: nat :: RefusedWith(node, batches, p, i, p.workers[w].error)
    {
      var i := ThrownIsRefused(node, batches, p, w);
    }
    forall i: nat | RefusedBatch(node, batches, p, i) ensures !NoneThrew(p) {
      RefusedIsThrown(node, batches, p, i);
    }
  }

  lemma ThrownIsRefused(node: Node, batches: seq<seq<Call>>, p: Pool, w: nat) returns (i: nat)
    requires Thrown(node, batches, p) && w < |p.workers| && p.workers[w].Threw?
    ensures RefusedWith(node, batches, p, i, p.workers[w].error)
  {
    hide BatchOutcome, Requests, AwaitedBy, Thrown;
    i := FailureOf(node, batches, p, w);
    OnlyRefusalsPropagate(node, batches[i], Failure(p.workers[w].error));
    var request :| request in Requests(node, batches[i]) && node(request) == Refused(p.workers[w].error);
  }

  lemma FailureOf(node: Node, batches: seq<seq<Call>>, p: Pool, w: nat) returns (i: nat)
    requires Thrown(node, batches, p) && w < |p.workers| && p.workers[w].Threw?
    ensures FailedAt(node, batches, p, i, p.workers[w].error)
  {
    hide FailedAt;
    i :| FailedAt(node, batches, p, i, p.workers[w].error);
  }

  lemma RefusedIsThrown(node: Node, batches: seq<seq<Call>>, p: Pool, i: nat)
    requires PoolInv(node, batches, p) && Thrown(node, batches, p) && RefusedBatch(node, batches, p, i)
    ensures !NoneThrew(p)
  {
    hide BatchOutcome, Requests, AwaitedBy, FailedAt, Counted, Exclusive, NothingLost;
    if p.results[i].Some? {
      OnlyRefusalsPropagate(node, batches[i], Success(p.results[i].value));
      assert false;
    }
    assert ThrownFor(node, batches, p, i);
  }

  // Up to its first await, call checks its limits and cuts the calls into batches; the count is of workers.
  method Prepare(calls: seq<Call>, batchSize: int, concurrency: int) returns (r: Result<(seq<seq<Call>>, nat)>)
    ensures r.Success? <==> 1 <= batchSize <= 500 && 1 <= concurrency <= 32
    ensures r.Failure? ==> r.error == "Invalid Multicall limits"
    ensures r.Success? ==>
      && Flat(r.value.0) == calls && (forall b :: b in r.value.0 ==> 1 <= |b| <= batchSize)
      && (forall k :: 0 <= k < |r.value.0| - 1 ==> |r.value.0[k]| == batchSize)
      && r.value.1 == if concurrency < |r.value.0| then concurrency else |r.value.0|
  {
    if batchSize < 1 || batchSize > 500 || concurrency < 1 || concurrency > 32 {
      return Failure("Invalid Multicall limits");
    }
    var batches := Batches(calls, batchSize);
    return Success((batches, if concurrency < |batches| then concurrency else |batches|));
  }

  // ----- progress -----

  lemma {:induction false} OutcomeExists(node: Node, calls: seq<Call>) returns (r: Result<seq<CallResult>>)
    ensures BatchOutcome(node, calls, r)
    decreases |calls|
  {
    hide BatchOutcome;
    WholeBatch(node, calls);
    if calls == [] {
      r := Success([]);
    } else if node(calls).Answered? {
      r := Success(node(calls).results);
    } else if node(calls).Refused? {
      r := Failure(node(calls).error);
    } else if |calls| == 1 {
      r := Success([GAVE_UP]);
    } else {
      var left := OutcomeExists(node, calls[..Middle(calls)]);
      var right := OutcomeExists(node, calls[Middle(calls)..]);
      JoinHalves(node, calls, left, right);
      r := if left.Failure? then left else if right.Failure? then right else Success(left.value + right.value);
    }
  }

  // A worker that has neither returned nor thrown can always take its next step.
  lemma NoWorkerIsStuck(node: Node, batches: seq<seq<Call>>, p: Pool, w: nat) returns (p': Pool)
    requires PoolInv(node, batches, p) && w < |p.workers| && (p.workers[w].Ready? || p.workers[w].Awaiting?)
    ensures PoolStep(node, batches, p, p', w)
  {
    hide BatchOutcome, NothingLost, InPlace;
    match p.workers[w]
    case Ready =>
      p' := if p.next >= |batches| then p.(next := p.next + 1, workers := p.workers[w := Returned])
            else p.(next := p.next + 1, workers := p.workers[w := Awaiting(p.next)], claims := p.claims + [p.next]);
    case Awaiting(index) =>
      var r := OutcomeExists(node, batches[index]);
      match r {
        case Success(value) => p' := p.(results := p.results[index := Some(value)], workers := p.workers[w := Ready]);
        case Failure(error) => p' := p.(workers := p.workers[w := Threw(error)]);
      }
    case _ =>
      assert false;
  }

  // Each worker's remaining steps: a batch is worth two, its claim and its outcome.
  function Outstanding(workers: seq<Worker>): nat {
    if workers == [] then 0
    else Outstanding(workers[..|workers| - 1]) +
         Weight(workers[|workers| - 1])
  }

  function Weight(w: Worker): nat {
    match w case Ready => 1 case Awaiting(_) => 2 case _ => 0
  }

  function Remaining(batches: seq<seq<Call>>, p: Pool): int {
    2 * (|batches| - |p.claims|) + Outstanding(p.workers)
  }

  lemma {:induction false} OutstandingUpdate(workers: seq<Worker>, w: nat, now: Worker)
    requires w < |workers|
    ensures Outstanding(workers[w := now]) == Outstanding(workers) - Weight(workers[w]) + Weight(now)
  {
    var n := |workers| - 1;
    if w < n {
      OutstandingUpdate(workers[..n], w, now);
      assert workers[w := now][..n] == workers[..n][w := now];
    } else {
      assert workers[w := now][..n] == workers[..n];
    }
  }

  // Every step brings the pool strictly closer to its end, so every run is finite.
  lemma StepsRunOut(node: Node, batches: seq<seq<Call>>, p: Pool, p': Pool, w: nat)
    requires PoolInv(node, batches, p) && PoolStep(node, batches, p, p', w)
    ensures 0 <= Remaining(batches, p') < Remaining(batches, p)
  {
    hide BatchOutcome, NothingLost, InPlace, Exclusive;
    StepCounted(node, batches, p, p', w);
    OutstandingUpdate(p.workers, w, p'.workers[w]);
    assert p'.workers == p.workers[w := p'.workers[w]];
  }
}
