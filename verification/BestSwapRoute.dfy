// The layered search for the best combination of routes.
module BestSwapRoute {
  import opened Results

  // A quoted route: the share of the trade it takes, what it returns (or costs), and its pools.
  datatype Quote = Quote(percent: int, amount: nat, pools: seq<nat>)

  predicate Better(exactIn: bool, a: int, b: int) {
    if exactIn then a > b else a < b
  }

  function Total(routes: seq<Quote>): nat {
    if routes == [] then 0 else Total(routes[..|routes| - 1]) + routes[|routes| - 1].amount
  }

  function Percents(routes: seq<Quote>): int {
    if routes == [] then 0 else Percents(routes[..|routes| - 1]) + routes[|routes| - 1].percent
  }

  // The quotes by percentage, each list best first: grouped and sorted.
  ghost predicate Grouped(quotes: seq<Quote>, exactIn: bool, sorted: map<int, seq<Quote>>) {
    && (forall q :: q in quotes ==> q.percent in sorted && q in sorted[q.percent])
    && (forall p, q :: p in sorted && q in sorted[p] ==> q.percent == p && q in quotes)
    && (forall p, i, j :: p in sorted && 0 <= i < j < |sorted[p]| ==> !Better(exactIn, sorted[p][j].amount, sorted[p][i].amount))
  }

  function Candidates(sorted: map<int, seq<Quote>>, percent: int): seq<Quote> {
    if percent in sorted then sorted[percent] else []
  }

  predicate Disjoint(a: Quote, b: Quote) {
    forall address :: address in a.pools ==> address !in b.pools
  }

  predicate FreeOf(q: Quote, routes: seq<Quote>) {
    forall i :: 0 <= i < |routes| ==> Disjoint(q, routes[i])
  }

  // The best candidate that shares no pool with the routes already chosen.
  function FirstFree(candidates: seq<Quote>, routes: seq<Quote>): (r: Option<Quote>)
    ensures r.Some? ==> r.value in candidates && FreeOf(r.value, routes)
  {
    if candidates == [] then None
    else if FreeOf(candidates[0], routes) then Some(candidates[0])
    else FirstFree(candidates[1..], routes)
  }

  datatype Entry = Entry(percentIndex: int, routes: seq<Quote>, remaining: int)

  // The extension of an entry by the i-th percentage, if there is one.
  function Extend(percents: seq<int>, sorted: map<int, seq<Quote>>, e: Entry, i: nat): Option<Entry>
    requires i < |percents|
  {
    if percents[i] > e.remaining then None
    else
      match FirstFree(Candidates(sorted, percents[i]), e.routes)
      case None => None
      case Some(q) => Some(Entry(i, e.routes + [q], e.remaining - percents[i]))
  }

  // The recursive definition of the search: allocation is a complete allocation that entry e leads
  // to in at most the given number of extensions, each with no larger a percentage than the last.
  ghost predicate Reaches(percents: seq<int>, sorted: map<int, seq<Quote>>, e: Entry, layers: int, allocation: seq<Quote>)
    decreases layers, 1
  {
    layers > 0 &&
    exists i :: 0 <= i <= e.percentIndex && i < |percents| && ReachesBy(percents, sorted, e, layers, allocation, i)
  }

  ghost predicate ReachesBy(percents: seq<int>, sorted: map<int, seq<Quote>>, e: Entry, layers: int, allocation: seq<Quote>, i: nat)
    requires layers > 0 && i < |percents|
    decreases layers, 0
  {
    var next := Extend(percents, sorted, e, i);
    next.Some? &&
    if next.value.remaining == 0 then allocation == next.value.routes
    else Reaches(percents, sorted, next.value, layers - 1, allocation)
  }

  // A starting point: one of the two best quotes of a percentage.
  ghost predicate IsSeed(percents: seq<int>, sorted: map<int, seq<Quote>>, e: Entry) {
    && 0 <= e.percentIndex < |percents|
    && var percent := percents[e.percentIndex];
       var candidates := Candidates(sorted, percent);
       && e.remaining == 100 - percent
       && exists j :: 0 <= j < 2 && j < |candidates| && e.routes == [candidates[j]]
  }

  // ----- soundness of entries -----

  ghost predicate Sound(quotes: seq<Quote>, e: Entry, size: int) {
    && |e.routes| == size
    && Percents(e.routes) + e.remaining == 100
    && PoolsDisjoint(e.routes)
    && forall q :: q in e.routes ==> q in quotes
  }

  ghost predicate PoolsDisjoint(routes: seq<Quote>) {
    forall i, j :: 0 <= i < j < |routes| ==> Disjoint(routes[j], routes[i])
  }

  lemma DisjointAppend(routes: seq<Quote>, q: Quote)
    requires PoolsDisjoint(routes) && FreeOf(q, routes)
    ensures PoolsDisjoint(routes + [q])
  {
    var longer := routes + [q];
    hide Disjoint;
    forall i, j | 0 <= i < j < |longer| ensures Disjoint(longer[j], longer[i]) {
      if j < |routes| {
        assert longer[j] == routes[j] && longer[i] == routes[i];
      }
    }
  }

  lemma PercentsAppend(routes: seq<Quote>, q: Quote)
    ensures Percents(routes + [q]) == Percents(routes) + q.percent
    ensures Total(routes + [q]) == Total(routes) + q.amount
  {
    var longer := routes + [q];
    assert longer[..|longer| - 1] == routes;
  }

  lemma CandidateFacts(quotes: seq<Quote>, exactIn: bool, sorted: map<int, seq<Quote>>, percent: int, q: Quote)
    requires Grouped(quotes, exactIn, sorted) && q in Candidates(sorted, percent)
    ensures q in quotes && q.percent == percent
  {
  }

  lemma ExtendSound(quotes: seq<Quote>, exactIn: bool, percents: seq<int>, sorted: map<int, seq<Quote>>, e: Entry, size: int, i: nat)
    requires Grouped(quotes, exactIn, sorted) && Sound(quotes, e, size) && i < |percents|
    requires Extend(percents, sorted, e, i).Some?
    ensures Sound(quotes, Extend(percents, sorted, e, i).value, size + 1)
  {
    hide Grouped, PoolsDisjoint, FreeOf, Percents, Total;
    var q := FirstFree(Candidates(sorted, percents[i]), e.routes).value;
    CandidateFacts(quotes, exactIn, sorted, percents[i], q);
    DisjointAppend(e.routes, q);
    PercentsAppend(e.routes, q);
  }

  lemma SeedSound(quotes: seq<Quote>, exactIn: bool, percents: seq<int>, sorted: map<int, seq<Quote>>, e: Entry)
    requires Grouped(quotes, exactIn, sorted) && IsSeed(percents, sorted, e)
    ensures Sound(quotes, e, 1)
  {
    assert Percents(e.routes) == Percents(e.routes[..0]) + e.routes[0].percent;
  }

  // What every result is: a full allocation over pairwise disjoint routes of an admissible size.
  ghost predicate Admissible(quotes: seq<Quote>, minSplits: int, maxSplits: int, routes: seq<Quote>) {
    && Percents(routes) == 100 && PoolsDisjoint(routes)
    && (forall q :: q in routes ==> q in quotes)
    && 1 <= |routes| && minSplits <= |routes| && (|routes| == 1 || |routes| <= maxSplits)
  }

  // Best is no worse than another allocation.
  predicate AsGood(exactIn: bool, best: Option<seq<Quote>>, allocation: seq<Quote>) {
    best.Some? && !Better(exactIn, Total(allocation), Total(best.value))
  }

  predicate Improves(exactIn: bool, a: Option<seq<Quote>>, b: Option<seq<Quote>>) {
    a.Some? ==> AsGood(exactIn, b, a.value)
  }

  lemma ImprovesTransitive(exactIn: bool, a: Option<seq<Quote>>, b: Option<seq<Quote>>, allocation: seq<Quote>)
    requires Improves(exactIn, a, b) && AsGood(exactIn, a, allocation)
    ensures AsGood(exactIn, b, allocation)
  {
  }

  // ----- one layer -----

  // A complete allocation is matched: best is as good, or some queued entry still leads to it.
  ghost predicate Matched(percents: seq<int>, sorted: map<int, seq<Quote>>, exactIn: bool, layers: int,
                          best: Option<seq<Quote>>, queue: seq<Entry>, allocation: seq<Quote>) {
    AsGood(exactIn, best, allocation)
    || exists k :: 0 <= k < |queue| && Reaches(percents, sorted, queue[k], layers, allocation)
  }

  // Everything the i-th extension of an entry leads to is matched.
  ghost predicate ExploredBy(percents: seq<int>, sorted: map<int, seq<Quote>>, exactIn: bool, minSplits: int,
                             e: Entry, layers: nat, best: Option<seq<Quote>>, queue: seq<Entry>, i: nat)
    requires i < |percents|
  {
    forall allocation ::
      ReachesBy(percents, sorted, e, layers + 1, allocation, i) && minSplits <= |allocation| ==>
        Matched(percents, sorted, exactIn, layers, best, queue, allocation)
  }

  // Everything an entry leads to is matched.
  ghost predicate Explored(percents: seq<int>, sorted: map<int, seq<Quote>>, exactIn: bool, minSplits: int,
                           e: Entry, layers: nat, best: Option<seq<Quote>>, queue: seq<Entry>) {
    forall allocation ::
      Reaches(percents, sorted, e, layers + 1, allocation) && minSplits <= |allocation| ==>
        Matched(percents, sorted, exactIn, layers, best, queue, allocation)
  }

  lemma MatchedGrows(percents: seq<int>, sorted: map<int, seq<Quote>>, exactIn: bool, layers: int,
                     best: Option<seq<Quote>>, queue: seq<Entry>, best': Option<seq<Quote>>, queue': seq<Entry>, allocation: seq<Quote>)
    requires Matched(percents, sorted, exactIn, layers, best, queue, allocation)
    requires Improves(exactIn, best, best') && queue <= queue'
    ensures Matched(percents, sorted, exactIn, layers, best', queue', allocation)
  {
    hide Reaches;
    if AsGood(exactIn, best, allocation) {
      ImprovesTransitive(exactIn, best, best', allocation);
    } else {
      var k :| 0 <= k < |queue| && Reaches(percents, sorted, queue[k], layers, allocation);
      assert queue'[k] == queue[k];
    }
  }

  lemma ExploredByGrows(percents: seq<int>, sorted: map<int, seq<Quote>>, exactIn: bool, minSplits: int, e: Entry, layers: nat,
                        best: Option<seq<Quote>>, queue: seq<Entry>, best': Option<seq<Quote>>, queue': seq<Entry>, i: nat)
    requires i < |percents| && ExploredBy(percents, sorted, exactIn, minSplits, e, layers, best, queue, i)
    requires Improves(exactIn, best, best') && queue <= queue'
    ensures ExploredBy(percents, sorted, exactIn, minSplits, e, layers, best', queue', i)
  {
    hide Matched, ReachesBy, Improves;
    forall allocation | ReachesBy(percents, sorted, e, layers + 1, allocation, i) && minSplits <= |allocation|
      ensures Matched(percents, sorted, exactIn, layers, best', queue', allocation)
    {
      MatchedGrows(percents, sorted, exactIn, layers, best, queue, best', queue', allocation);
    }
  }

  lemma ExploredGrows(percents: seq<int>, sorted: map<int, seq<Quote>>, exactIn: bool, minSplits: int, e: Entry, layers: nat,
                      best: Option<seq<Quote>>, queue: seq<Entry>, best': Option<seq<Quote>>, queue': seq<Entry>)
    requires Explored(percents, sorted, exactIn, minSplits, e, layers, best, queue)
    requires Improves(exactIn, best, best') && queue <= queue'
    ensures Explored(percents, sorted, exactIn, minSplits, e, layers, best', queue')
  {
    hide Matched, Reaches, Improves;
    forall allocation | Reaches(percents, sorted, e, layers + 1, allocation) && minSplits <= |allocation|
      ensures Matched(percents, sorted, exactIn, layers, best', queue', allocation)
    {
      MatchedGrows(percents, sorted, exactIn, layers, best, queue, best', queue', allocation);
    }
  }

  lemma AllExtensionsExplored(percents: seq<int>, sorted: map<int, seq<Quote>>, exactIn: bool, minSplits: int, e: Entry, layers: nat,
                              best: Option<seq<Quote>>, queue: seq<Entry>)
    requires 0 <= e.percentIndex < |percents|
    requires forall i :: 0 <= i <= e.percentIndex ==> ExploredBy(percents, sorted, exactIn, minSplits, e, layers, best, queue, i)
    ensures Explored(percents, sorted, exactIn, minSplits, e, layers, best, queue)
  {
    hide Matched, ReachesBy;
    forall allocation | Reaches(percents, sorted, e, layers + 1, allocation) && minSplits <= |allocation|
      ensures Matched(percents, sorted, exactIn, layers, best, queue, allocation)
    {
      var i :| 0 <= i <= e.percentIndex && ReachesBy(percents, sorted, e, layers + 1, allocation, i);
      assert ExploredBy(percents, sorted, exactIn, minSplits, e, layers, best, queue, i);
    }
  }

  // A completed extension is explored once best is as good; an incomplete one once it is queued.
  lemma CompletedIsExplored(percents: seq<int>, sorted: map<int, seq<Quote>>, exactIn: bool, minSplits: int, e: Entry, layers: nat,
                            best: Option<seq<Quote>>, queue: seq<Entry>, i: nat, next: Entry)
    requires i < |percents| && Extend(percents, sorted, e, i) == Some(next) && next.remaining == 0
    requires minSplits <= |next.routes| ==> AsGood(exactIn, best, next.routes)
    ensures ExploredBy(percents, sorted, exactIn, minSplits, e, layers, best, queue, i)
  {
    hide Extend, AsGood, Reaches;
  }

  lemma QueuedIsExplored(percents: seq<int>, sorted: map<int, seq<Quote>>, exactIn: bool, minSplits: int, e: Entry, layers: nat,
                         best: Option<seq<Quote>>, queue: seq<Entry>, i: nat, next: Entry)
    requires i < |percents| && Extend(percents, sorted, e, i) == Some(next) && next.remaining != 0
    requires layers > 0 ==> |queue| > 0 && queue[|queue| - 1] == next
    ensures ExploredBy(percents, sorted, exactIn, minSplits, e, layers, best, queue, i)
  {
    hide Extend, AsGood;
    forall allocation | ReachesBy(percents, sorted, e, layers + 1, allocation, i) && minSplits <= |allocation|
      ensures Matched(percents, sorted, exactIn, layers, best, queue, allocation)
    {
      assert Reaches(percents, sorted, next, layers, allocation);
    }
  }

  ghost predicate QueueSound(quotes: seq<Quote>, percents: seq<int>, queue: seq<Entry>, size: int) {
    forall k :: 0 <= k < |queue| ==> Sound(quotes, queue[k], size) && 0 <= queue[k].percentIndex < |percents|
  }

  ghost predicate BestSound(quotes: seq<Quote>, minSplits: int, maxSplits: int, best: Option<seq<Quote>>) {
    best.Some? ==> Admissible(quotes, minSplits, maxSplits, best.value)
  }

  // All extensions from the given percentage index up to the entry's own are matched.
  ghost predicate ExploredDownTo(percents: seq<int>, sorted: map<int, seq<Quote>>, exactIn: bool, minSplits: int,
                                 e: Entry, layers: nat, best: Option<seq<Quote>>, queue: seq<Entry>, from: int)
    requires e.percentIndex < |percents| && 0 <= from
  {
    forall j :: from <= j <= e.percentIndex ==> ExploredBy(percents, sorted, exactIn, minSplits, e, layers, best, queue, j)
  }

  lemma ExploredOneMore(percents: seq<int>, sorted: map<int, seq<Quote>>, exactIn: bool, minSplits: int, e: Entry, layers: nat,
                        best: Option<seq<Quote>>, queue: seq<Entry>, best': Option<seq<Quote>>, queue': seq<Entry>, i: nat)
    requires i <= e.percentIndex < |percents|
    requires ExploredDownTo(percents, sorted, exactIn, minSplits, e, layers, best, queue, i + 1)
    requires ExploredBy(percents, sorted, exactIn, minSplits, e, layers, best', queue', i)
    requires Improves(exactIn, best, best') && queue <= queue'
    ensures ExploredDownTo(percents, sorted, exactIn, minSplits, e, layers, best', queue', i)
  {
    hide ExploredBy, Improves;
    forall j | i <= j <= e.percentIndex ensures ExploredBy(percents, sorted, exactIn, minSplits, e, layers, best', queue', j) {
      if j > i {
        ExploredByGrows(percents, sorted, exactIn, minSplits, e, layers, best, queue, best', queue', j);
      }
    }
  }

  lemma NothingToExtend(percents: seq<int>, sorted: map<int, seq<Quote>>, exactIn: bool, minSplits: int, e: Entry, layers: nat,
                        best: Option<seq<Quote>>, queue: seq<Entry>, i: nat)
    requires i < |percents| && Extend(percents, sorted, e, i).None?
    ensures ExploredBy(percents, sorted, exactIn, minSplits, e, layers, best, queue, i)
  {
    hide Extend, AsGood, Matched;
  }

  // candidates.find, as a loop over the sorted quotes.
  method FindFree(candidates: seq<Quote>, routes: seq<Quote>) returns (r: Option<Quote>)
    ensures r == FirstFree(candidates, routes)
  {
    var k := 0;
    while k < |candidates|
      invariant 0 <= k <= |candidates|
      invariant FirstFree(candidates, routes) == FirstFree(candidates[k..], routes)
    {
      assert candidates[k..][0] == candidates[k] && candidates[k..][1..] == candidates[k + 1..];
      if FreeOf(candidates[k], routes) { return Some(candidates[k]); }
      k := k + 1;
    }
    return None;
  }

  lemma NewBestSound(quotes: seq<Quote>, minSplits: int, maxSplits: int, e: Entry, size: int)
    requires Sound(quotes, e, size) && e.remaining == 0 && 1 <= size && minSplits <= size && (size == 1 || size <= maxSplits)
    ensures Admissible(quotes, minSplits, maxSplits, e.routes)
  {
    hide Percents, PoolsDisjoint;
  }

  lemma QueueSoundPush(quotes: seq<Quote>, percents: seq<int>, queue: seq<Entry>, size: int, e: Entry)
    requires QueueSound(quotes, percents, queue, size) && Sound(quotes, e, size) && 0 <= e.percentIndex < |percents|
    ensures QueueSound(quotes, percents, queue + [e], size)
  {
    hide Sound;
  }

  // The inner loop: extend one entry by every percentage up to its own.
  method ExtendEntry(quotes: seq<Quote>, percents: seq<int>, sorted: map<int, seq<Quote>>, exactIn: bool,
                     minSplits: int, maxSplits: int, splits: int, e: Entry, best: Option<seq<Quote>>, queue: seq<Entry>)
    returns (best': Option<seq<Quote>>, queue': seq<Entry>)
    requires Grouped(quotes, exactIn, sorted)
    requires 2 <= splits <= maxSplits && 0 <= e.percentIndex < |percents| && Sound(quotes, e, splits - 1)
    requires BestSound(quotes, minSplits, maxSplits, best) && QueueSound(quotes, percents, queue, splits)
    ensures BestSound(quotes, minSplits, maxSplits, best') && QueueSound(quotes, percents, queue', splits)
    ensures Improves(exactIn, best, best') && queue <= queue'
    ensures Explored(percents, sorted, exactIn, minSplits, e, maxSplits - splits, best', queue')
  {
    hide Grouped, Admissible, ExploredBy, Explored, ExploredDownTo, FirstFree, QueueSound;
    best', queue' := best, queue;
    var i := e.percentIndex;
    ghost var layers := maxSplits - splits;
    StartDownTo(percents, sorted, exactIn, minSplits, e, layers, best, queue);
    while i >= 0
      invariant -1 <= i <= e.percentIndex
      invariant BestSound(quotes, minSplits, maxSplits, best') && QueueSound(quotes, percents, queue', splits)
      invariant Improves(exactIn, best, best') && queue <= queue'
      invariant ExploredDownTo(percents, sorted, exactIn, minSplits, e, layers, best', queue', i + 1)
    {
      var percent := percents[i];
      ghost var best0, queue0 := best', queue';
      if percent > e.remaining {
        NothingToExtend(percents, sorted, exactIn, minSplits, e, layers, best', queue', i);
      } else {
        var candidate := FindFree(Candidates(sorted, percent), e.routes);
        if candidate.None? {
          NothingToExtend(percents, sorted, exactIn, minSplits, e, layers, best', queue', i);
        } else {
          var nextRoutes := e.routes + [candidate.value];
          var nextRemaining := e.remaining - percent;
          var next := Entry(i, nextRoutes, nextRemaining);
          ExtendSound(quotes, exactIn, percents, sorted, e, splits - 1, i);
          if nextRemaining == 0 {
            if |nextRoutes| >= minSplits {
              var quote := Total(nextRoutes);
              if best'.None? || Better(exactIn, quote, Total(best'.value)) {
                NewBestSound(quotes, minSplits, maxSplits, next, splits);
                best' := Some(nextRoutes);
              }
            }
            CompletedIsExplored(percents, sorted, exactIn, minSplits, e, layers, best', queue', i, next);
          } else {
            if splits < maxSplits {
              QueueSoundPush(quotes, percents, queue', splits, next);
              queue' := queue' + [next];
            }
            QueuedIsExplored(percents, sorted, exactIn, minSplits, e, layers, best', queue', i, next);
          }
        }
      }
      ExploredOneMore(percents, sorted, exactIn, minSplits, e, layers, best0, queue0, best', queue', i);
      i := i - 1;
    }
    DownToZero(percents, sorted, exactIn, minSplits, e, layers, best', queue');
  }

  lemma StartDownTo(percents: seq<int>, sorted: map<int, seq<Quote>>, exactIn: bool, minSplits: int, e: Entry, layers: nat,
                    best: Option<seq<Quote>>, queue: seq<Entry>)
    requires 0 <= e.percentIndex < |percents|
    ensures ExploredDownTo(percents, sorted, exactIn, minSplits, e, layers, best, queue, e.percentIndex + 1)
  {
  }

  lemma DownToZero(percents: seq<int>, sorted: map<int, seq<Quote>>, exactIn: bool, minSplits: int, e: Entry, layers: nat,
                   best: Option<seq<Quote>>, queue: seq<Entry>)
    requires 0 <= e.percentIndex < |percents|
    requires ExploredDownTo(percents, sorted, exactIn, minSplits, e, layers, best, queue, 0)
    ensures Explored(percents, sorted, exactIn, minSplits, e, layers, best, queue)
  {
    hide ExploredBy, Explored;
    AllExtensionsExplored(percents, sorted, exactIn, minSplits, e, layers, best, queue);
  }

  // Everything a whole layer leads to is matched.
  ghost predicate LayerExplored(percents: seq<int>, sorted: map<int, seq<Quote>>, exactIn: bool, minSplits: int,
                                layer: seq<Entry>, layers: nat, best: Option<seq<Quote>>, queue: seq<Entry>) {
    forall k :: 0 <= k < |layer| ==> Explored(percents, sorted, exactIn, minSplits, layer[k], layers, best, queue)
  }

  lemma LayerOneMore(percents: seq<int>, sorted: map<int, seq<Quote>>, exactIn: bool, minSplits: int, layer: seq<Entry>, layers: nat,
                     best: Option<seq<Quote>>, queue: seq<Entry>, best': Option<seq<Quote>>, queue': seq<Entry>, e: Entry)
    requires LayerExplored(percents, sorted, exactIn, minSplits, layer, layers, best, queue)
    requires Explored(percents, sorted, exactIn, minSplits, e, layers, best', queue')
    requires Improves(exactIn, best, best') && queue <= queue'
    ensures LayerExplored(percents, sorted, exactIn, minSplits, layer + [e], layers, best', queue')
  {
    hide Explored, Improves;
    var longer := layer + [e];
    forall k | 0 <= k < |longer| ensures Explored(percents, sorted, exactIn, minSplits, longer[k], layers, best', queue') {
      if k < |layer| {
        ExploredGrows(percents, sorted, exactIn, minSplits, layer[k], layers, best, queue, best', queue');
      }
    }
  }

  lemma ImprovesChain(exactIn: bool, a: Option<seq<Quote>>, b: Option<seq<Quote>>, c: Option<seq<Quote>>)
    requires Improves(exactIn, a, b) && Improves(exactIn, b, c)
    ensures Improves(exactIn, a, c)
  {
  }

  method ExtendLayer(quotes: seq<Quote>, percents: seq<int>, sorted: map<int, seq<Quote>>, exactIn: bool,
                     minSplits: int, maxSplits: int, splits: int, layer: seq<Entry>, best: Option<seq<Quote>>)
    returns (best': Option<seq<Quote>>, queue: seq<Entry>)
    requires Grouped(quotes, exactIn, sorted)
    requires 2 <= splits <= maxSplits && QueueSound(quotes, percents, layer, splits - 1)
    requires BestSound(quotes, minSplits, maxSplits, best)
    ensures BestSound(quotes, minSplits, maxSplits, best') && QueueSound(quotes, percents, queue, splits)
    ensures Improves(exactIn, best, best')
    ensures LayerExplored(percents, sorted, exactIn, minSplits, layer, maxSplits - splits, best', queue)
  {
    hide Grouped, Admissible, Explored, Sound, Total;
    best', queue := best, [];
    ghost var layers := maxSplits - splits;
    var k := 0;
    while k < |layer|
      invariant 0 <= k <= |layer|
      invariant BestSound(quotes, minSplits, maxSplits, best') && QueueSound(quotes, percents, queue, splits)
      invariant Improves(exactIn, best, best')
      invariant LayerExplored(percents, sorted, exactIn, minSplits, layer[..k], layers, best', queue)
    {
      ghost var best0, queue0 := best', queue;
      best', queue := ExtendEntry(quotes, percents, sorted, exactIn, minSplits, maxSplits, splits, layer[k], best', queue);
      ImprovesChain(exactIn, best, best0, best');
      LayerOneMore(percents, sorted, exactIn, minSplits, layer[..k], layers, best0, queue0, best', queue, layer[k]);
      assert layer[..k + 1] == layer[..k] + [layer[k]];
      k := k + 1;
    }
    assert layer[..k] == layer;
  }

  // ----- the whole search -----

  // Everything the starting points lead to is matched.
  ghost predicate AllMatched(percents: seq<int>, sorted: map<int, seq<Quote>>, exactIn: bool, minSplits: int, maxSplits: int,
                             layers: int, best: Option<seq<Quote>>, queue: seq<Entry>) {
    forall seed, allocation ::
      IsSeed(percents, sorted, seed) && Reaches(percents, sorted, seed, maxSplits - 1, allocation) && minSplits <= |allocation| ==>
        Matched(percents, sorted, exactIn, layers, best, queue, allocation)
  }

  lemma LayerKeepsMatched(percents: seq<int>, sorted: map<int, seq<Quote>>, exactIn: bool, minSplits: int, maxSplits: int,
                          layers: nat, best: Option<seq<Quote>>, layer: seq<Entry>, best': Option<seq<Quote>>, queue: seq<Entry>)
    requires AllMatched(percents, sorted, exactIn, minSplits, maxSplits, layers + 1, best, layer)
    requires LayerExplored(percents, sorted, exactIn, minSplits, layer, layers, best', queue)
    requires Improves(exactIn, best, best')
    ensures AllMatched(percents, sorted, exactIn, minSplits, maxSplits, layers, best', queue)
  {
    hide Reaches, IsSeed;
    forall seed, allocation |
        IsSeed(percents, sorted, seed) && Reaches(percents, sorted, seed, maxSplits - 1, allocation) && minSplits <= |allocation|
      ensures Matched(percents, sorted, exactIn, layers, best', queue, allocation)
    {
      assert Matched(percents, sorted, exactIn, layers + 1, best, layer, allocation);
      if AsGood(exactIn, best, allocation) {
        ImprovesTransitive(exactIn, best, best', allocation);
      } else {
        var k :| 0 <= k < |layer| && Reaches(percents, sorted, layer[k], layers + 1, allocation);
        assert Explored(percents, sorted, exactIn, minSplits, layer[k], layers, best', queue);
      }
    }
  }

  // The result is as good as everything the search could reach.
  ghost predicate Optimal(percents: seq<int>, sorted: map<int, seq<Quote>>, exactIn: bool, minSplits: int, maxSplits: int, best: Option<seq<Quote>>) {
    forall seed, allocation ::
      IsSeed(percents, sorted, seed) && Reaches(percents, sorted, seed, maxSplits - 1, allocation) && minSplits <= |allocation| ==>
        AsGood(exactIn, best, allocation)
  }

  lemma SearchEnds(percents: seq<int>, sorted: map<int, seq<Quote>>, exactIn: bool, minSplits: int, maxSplits: int,
                   layers: int, best: Option<seq<Quote>>, queue: seq<Entry>)
    requires AllMatched(percents, sorted, exactIn, minSplits, maxSplits, layers, best, queue)
    requires queue == [] || layers <= 0
    ensures Optimal(percents, sorted, exactIn, minSplits, maxSplits, best)
  {
    hide IsSeed, AsGood;
    forall seed, allocation |
        IsSeed(percents, sorted, seed) && Reaches(percents, sorted, seed, maxSplits - 1, allocation) && minSplits <= |allocation|
      ensures AsGood(exactIn, best, allocation)
    {
      assert Matched(percents, sorted, exactIn, layers, best, queue, allocation);
    }
  }

  // The whole trade through any one route is no better than the best such route.
  ghost predicate BeatsSingles(quotes: seq<Quote>, exactIn: bool, best: Option<seq<Quote>>) {
    forall q :: q in quotes && q.percent == 100 ==> AsGood(exactIn, best, [q])
  }

  lemma SinglesKept(quotes: seq<Quote>, exactIn: bool, best: Option<seq<Quote>>, best': Option<seq<Quote>>)
    requires BeatsSingles(quotes, exactIn, best) && Improves(exactIn, best, best')
    ensures BeatsSingles(quotes, exactIn, best')
  {
    forall q | q in quotes && q.percent == 100 ensures AsGood(exactIn, best', [q]) {
      ImprovesTransitive(exactIn, best, best', [q]);
    }
  }

  lemma SingleTotal(q: Quote)
    ensures Total([q]) == q.amount && Percents([q]) == q.percent
  {
    PercentsAppend([], q);
    assert [] + [q] == [q];
  }

  lemma BestSingle(quotes: seq<Quote>, exactIn: bool, sorted: map<int, seq<Quote>>, minSplits: int, maxSplits: int)
    requires Grouped(quotes, exactIn, sorted) && Candidates(sorted, 100) != [] && minSplits <= 1
    ensures BeatsSingles(quotes, exactIn, Some([sorted[100][0]]))
    ensures Admissible(quotes, minSplits, maxSplits, [sorted[100][0]])
  {
    var top := sorted[100][0];
    SingleTotal(top);
    forall q | q in quotes && q.percent == 100 ensures AsGood(exactIn, Some([top]), [q]) {
      SingleTotal(q);
      var k :| 0 <= k < |sorted[100]| && sorted[100][k] == q;
    }
  }

  // candidates.slice(0, 2), as queue entries.
  function SeedsAt(percents: seq<int>, sorted: map<int, seq<Quote>>, i: nat): seq<Entry>
    requires i < |percents|
  {
    var candidates := Candidates(sorted, percents[i]);
    seq(if |candidates| < 2 then |candidates| else 2, j requires 0 <= j < |candidates| => Entry(i, [candidates[j]], 100 - percents[i]))
  }

  lemma SeedsAtExactly(percents: seq<int>, sorted: map<int, seq<Quote>>, i: nat, e: Entry)
    requires i < |percents|
    ensures e in SeedsAt(percents, sorted, i) <==> IsSeed(percents, sorted, e) && e.percentIndex == i
  {
    var candidates := Candidates(sorted, percents[i]);
    if IsSeed(percents, sorted, e) && e.percentIndex == i {
      var j :| 0 <= j < 2 && j < |candidates| && e.routes == [candidates[j]];
      assert SeedsAt(percents, sorted, i)[j] == e;
    }
  }

  lemma SeedIndices(percents: seq<int>, sorted: map<int, seq<Quote>>)
    ensures forall e :: IsSeed(percents, sorted, e) ==> 0 <= e.percentIndex < |percents|
  {
  }

  // The seeding loop.
  method Seed(percents: seq<int>, sorted: map<int, seq<Quote>>) returns (queue: seq<Entry>)
    ensures forall e :: e in queue <==> IsSeed(percents, sorted, e)
  {
    hide IsSeed, SeedsAt;
    SeedIndices(percents, sorted);
    queue := [];
    var i := |percents| - 1;
    while i >= 0
      invariant -1 <= i < |percents|
      invariant forall e :: e in queue <==> IsSeed(percents, sorted, e) && e.percentIndex > i
    {
      ghost var before := queue;
      queue := queue + SeedsAt(percents, sorted, i);
      forall e ensures e in queue <==> IsSeed(percents, sorted, e) && e.percentIndex >= i {
        SeedsAtExactly(percents, sorted, i, e);
      }
      i := i - 1;
    }
  }

  lemma SeedsMatched(percents: seq<int>, sorted: map<int, seq<Quote>>, exactIn: bool, minSplits: int, maxSplits: int,
                     best: Option<seq<Quote>>, queue: seq<Entry>)
    requires forall e :: e in queue <==> IsSeed(percents, sorted, e)
    ensures AllMatched(percents, sorted, exactIn, minSplits, maxSplits, maxSplits - 1, best, queue)
  {
    hide IsSeed, Reaches, AsGood;
    forall seed, allocation |
        IsSeed(percents, sorted, seed) && Reaches(percents, sorted, seed, maxSplits - 1, allocation) && minSplits <= |allocation|
      ensures Matched(percents, sorted, exactIn, maxSplits - 1, best, queue, allocation)
    {
      assert seed in queue;
    }
  }

  lemma SeedsSound(quotes: seq<Quote>, exactIn: bool, percents: seq<int>, sorted: map<int, seq<Quote>>, queue: seq<Entry>)
    requires Grouped(quotes, exactIn, sorted)
    requires forall e :: e in queue <==> IsSeed(percents, sorted, e)
    ensures QueueSound(quotes, percents, queue, 1)
  {
    hide IsSeed, Grouped, Sound;
    SeedIndices(percents, sorted);
    forall k | 0 <= k < |queue| ensures Sound(quotes, queue[k], 1) && 0 <= queue[k].percentIndex < |percents| {
      assert queue[k] in queue;
      SeedSound(quotes, exactIn, percents, sorted, queue[k]);
    }
  }

  lemma NoCandidates(quotes: seq<Quote>, exactIn: bool, sorted: map<int, seq<Quote>>, percent: int)
    requires Grouped(quotes, exactIn, sorted)
    ensures |Candidates(sorted, percent)| > 0 ==> |quotes| > 0
  {
    assert percent in sorted && |sorted[percent]| > 0 ==> sorted[percent][0] in quotes;
  }

  lemma NoQuotes(quotes: seq<Quote>, exactIn: bool, percents: seq<int>, sorted: map<int, seq<Quote>>, minSplits: int, maxSplits: int)
    requires Grouped(quotes, exactIn, sorted) && quotes == []
    ensures Optimal(percents, sorted, exactIn, minSplits, maxSplits, None) && BeatsSingles(quotes, exactIn, None)
  {
    hide Reaches, Grouped;
    forall percent ensures Candidates(sorted, percent) == [] {
      NoCandidates(quotes, exactIn, sorted, percent);
    }
  }

  // getBestSwapRoute. It starts from the sorted lists, which are built first; their order among equals is
  // whatever the sort left. None stands for null.
  method GetBestSwapRoute(percents: seq<int>, quotes: seq<Quote>, sorted: map<int, seq<Quote>>, exactIn: bool,
                          minSplits: int, maxSplits: int)
    returns (best: Option<seq<Quote>>)
    requires Grouped(quotes, exactIn, sorted)
    ensures best.Some? ==> Admissible(quotes, minSplits, maxSplits, best.value)
    ensures Optimal(percents, sorted, exactIn, minSplits, maxSplits, best)
    ensures minSplits <= 1 ==> BeatsSingles(quotes, exactIn, best)
    ensures best.Some? ==> forall i, j, a :: 0 <= i < j < |best.value| && a in best.value[i].pools ==> a !in best.value[j].pools
    ensures minSplits <= 1 ==> forall q :: q in quotes && q.percent == 100 ==>
              best.Some? && if exactIn then Total(best.value) >= q.amount else Total(best.value) <= q.amount
  {
    hide Grouped, Admissible, IsSeed, Sound, AllMatched, LayerExplored, QueueSound, Optimal, BeatsSingles;
    best := None;
    if |quotes| == 0 {
      NoQuotes(quotes, exactIn, percents, sorted, minSplits, maxSplits);
      return;
    }
    if |Candidates(sorted, 100)| > 0 && minSplits <= 1 {
      BestSingle(quotes, exactIn, sorted, minSplits, maxSplits);
      best := Some([sorted[100][0]]);
    }
    NoSingles(quotes, exactIn, sorted, best);
    var queue := Seed(percents, sorted);
    SeedsMatched(percents, sorted, exactIn, minSplits, maxSplits, best, queue);
    SeedsSound(quotes, exactIn, percents, sorted, queue);
    var splits := 1;
    while |queue| > 0 && splits < maxSplits
      invariant 1 <= splits && (splits == 1 || splits <= maxSplits)
      invariant BestSound(quotes, minSplits, maxSplits, best) && QueueSound(quotes, percents, queue, splits)
      invariant AllMatched(percents, sorted, exactIn, minSplits, maxSplits, maxSplits - splits, best, queue)
      invariant minSplits <= 1 ==> BeatsSingles(quotes, exactIn, best)
      decreases maxSplits - splits
    {
      splits := splits + 1;
      var layer := queue;
      ghost var before := best;
      best, queue := ExtendLayer(quotes, percents, sorted, exactIn, minSplits, maxSplits, splits, layer, best);
      LayerKeepsMatched(percents, sorted, exactIn, minSplits, maxSplits, maxSplits - splits, before, layer, best, queue);
      if minSplits <= 1 {
        SinglesKept(quotes, exactIn, before, best);
      }
    }
    SearchEnds(percents, sorted, exactIn, minSplits, maxSplits, maxSplits - splits, best, queue);
    ResultFacts(quotes, exactIn, minSplits, maxSplits, best);
  }

  lemma ResultFacts(quotes: seq<Quote>, exactIn: bool, minSplits: int, maxSplits: int, best: Option<seq<Quote>>)
    requires BestSound(quotes, minSplits, maxSplits, best)
    ensures best.Some? ==> forall i, j, a :: 0 <= i < j < |best.value| && a in best.value[i].pools ==> a !in best.value[j].pools
    ensures BeatsSingles(quotes, exactIn, best) ==> forall q :: q in quotes && q.percent == 100 ==>
              best.Some? && if exactIn then Total(best.value) >= q.amount else Total(best.value) <= q.amount
  {
    if best.Some? {
      forall i, j, address | 0 <= i < j < |best.value| && address in best.value[i].pools ensures address !in best.value[j].pools {
        assert Disjoint(best.value[j], best.value[i]);
      }
    }
    if BeatsSingles(quotes, exactIn, best) {
      forall q | q in quotes && q.percent == 100
        ensures best.Some? && if exactIn then Total(best.value) >= q.amount else Total(best.value) <= q.amount
      {
        SingleTotal(q);
        assert AsGood(exactIn, best, [q]);
      }
    }
  }

  lemma NoSingles(quotes: seq<Quote>, exactIn: bool, sorted: map<int, seq<Quote>>, best: Option<seq<Quote>>)
    requires Grouped(quotes, exactIn, sorted)
    ensures Candidates(sorted, 100) == [] ==> BeatsSingles(quotes, exactIn, best)
  {
  }

  // In plain terms: the result is as good as any two-way split that starts from one of the two best quotes
  // of a share and completes it, at no larger a share, over other pools.
  lemma PairsAreCovered(quotes: seq<Quote>, exactIn: bool, percents: seq<int>, sorted: map<int, seq<Quote>>,
                        minSplits: int, maxSplits: int, best: Option<seq<Quote>>, k: nat, i: nat, j: nat, first: Quote, second: Quote)
    requires Grouped(quotes, exactIn, sorted) && Optimal(percents, sorted, exactIn, minSplits, maxSplits, best)
    requires i <= k < |percents| && percents[k] in sorted && percents[k] + percents[i] == 100
    requires j < 2 && j < |sorted[percents[k]]| && first == sorted[percents[k]][j]
    requires second in quotes && second.percent == percents[i] && (forall a :: a in second.pools ==> a !in first.pools)
    requires minSplits <= 2 <= maxSplits
    ensures best.Some? &&
      if exactIn then Total(best.value) >= first.amount + second.amount else Total(best.value) <= first.amount + second.amount
  {
    hide *;
    var seed := Entry(k, [first], 100 - percents[k]);
    TopTwoSeed(percents, sorted, k, j, first);
    NothingShared(second, first);
    DisjointIsFree(second, first);
    var found := BestCompletion(quotes, exactIn, percents, sorted, seed, maxSplits - 1, i, second);
    OptimalCovers(percents, sorted, exactIn, minSplits, maxSplits, best, seed, [first] + [found]);
    PercentsAppend([first], found);
    SingleTotal(first);
    AsGoodTotals(exactIn, best, [first] + [found], first.amount + second.amount);
  }

  lemma NothingShared(q: Quote, r: Quote)
    requires forall a :: a in q.pools ==> a !in r.pools
    ensures Disjoint(q, r)
  {
  }

  lemma SomethingShared(q: Quote, r: Quote)
    requires exists a :: a in q.pools && a in r.pools
    ensures !Disjoint(q, r)
  {
  }

  // The last route of an allocation is the best that is free.
  lemma BestCompletion(quotes: seq<Quote>, exactIn: bool, percents: seq<int>, sorted: map<int, seq<Quote>>,
                       e: Entry, layers: int, i: nat, last: Quote) returns (found: Quote)
    requires Grouped(quotes, exactIn, sorted) && i <= e.percentIndex < |percents| && layers > 0
    requires last in quotes && last.percent == percents[i] == e.remaining && FreeOf(last, e.routes)
    ensures Reaches(percents, sorted, e, layers, e.routes + [found])
    ensures if exactIn then found.amount >= last.amount else found.amount <= last.amount
  {
    hide Grouped, FreeOf, Reaches;
    var candidates := SortedCandidates(quotes, exactIn, sorted, last);
    FirstFreeIsBest(exactIn, candidates, e.routes, last);
    found := FirstFree(candidates, e.routes).value;
    PairReached(percents, sorted, e, layers, i, found);
  }

  lemma OptimalCovers(percents: seq<int>, sorted: map<int, seq<Quote>>, exactIn: bool, minSplits: int, maxSplits: int,
                      best: Option<seq<Quote>>, seed: Entry, allocation: seq<Quote>)
    requires Optimal(percents, sorted, exactIn, minSplits, maxSplits, best) && IsSeed(percents, sorted, seed)
    requires Reaches(percents, sorted, seed, maxSplits - 1, allocation) && minSplits <= |allocation|
    ensures AsGood(exactIn, best, allocation)
  {
    hide IsSeed, Reaches, AsGood;
  }

  lemma AsGoodTotals(exactIn: bool, best: Option<seq<Quote>>, allocation: seq<Quote>, total: int)
    requires AsGood(exactIn, best, allocation)
    requires if exactIn then Total(allocation) >= total else Total(allocation) <= total
    ensures best.Some? && if exactIn then Total(best.value) >= total else Total(best.value) <= total
  {
    hide Total;
  }

  lemma TopTwoSeed(percents: seq<int>, sorted: map<int, seq<Quote>>, k: nat, j: nat, first: Quote)
    requires k < |percents| && percents[k] in sorted
    requires j < 2 && j < |sorted[percents[k]]| && first == sorted[percents[k]][j]
    ensures IsSeed(percents, sorted, Entry(k, [first], 100 - percents[k]))
  {
    var e := Entry(k, [first], 100 - percents[k]);
    var candidates := Candidates(sorted, percents[k]);
    assert e.routes == [candidates[j]];
  }

  lemma DisjointIsFree(q: Quote, first: Quote)
    ensures FreeOf(q, [first]) <==> Disjoint(q, first)
  {
    assert [first][0] == first;
  }

  lemma SharedNot(candidates: seq<Quote>, first: Quote, m: nat)
    requires m < |candidates| && Disjoint(candidates[m], first) && forall n :: 0 <= n < m ==> !Disjoint(candidates[n], first)
    ensures FreeOf(candidates[m], [first]) && forall n :: 0 <= n < m ==> !FreeOf(candidates[n], [first])
  {
    DisjointIsFree(candidates[m], first);
    hide Disjoint, FreeOf;
    forall n | 0 <= n < m ensures !FreeOf(candidates[n], [first]) {
      DisjointIsFree(candidates[n], first);
    }
  }

  // And as good as any three-way split that goes on from there with the best second route over pools that
  // are still free, and completes it, at no larger a share again, over other pools.
  lemma TriplesAreCovered(quotes: seq<Quote>, exactIn: bool, percents: seq<int>, sorted: map<int, seq<Quote>>,
                          minSplits: int, maxSplits: int, best: Option<seq<Quote>>,
                          k: nat, i: nat, h: nat, j: nat, first: Quote, m: nat, third: Quote)
    requires Grouped(quotes, exactIn, sorted) && Optimal(percents, sorted, exactIn, minSplits, maxSplits, best)
    requires h <= i <= k < |percents| && percents[k] in sorted && percents[i] in sorted
    requires percents[k] + percents[i] + percents[h] == 100 && 0 < percents[h]
    requires j < 2 && j < |sorted[percents[k]]| && first == sorted[percents[k]][j]
    requires m < |sorted[percents[i]]| && (forall a :: a in sorted[percents[i]][m].pools ==> a !in first.pools)
    requires forall n :: 0 <= n < m ==> exists a :: a in sorted[percents[i]][n].pools && a in first.pools
    requires third in quotes && third.percent == percents[h]
    requires forall a :: a in third.pools ==> a !in first.pools && a !in sorted[percents[i]][m].pools
    requires minSplits <= 3 <= maxSplits
    ensures
      var total := first.amount + sorted[percents[i]][m].amount + third.amount;
      best.Some? && if exactIn then Total(best.value) >= total else Total(best.value) <= total
  {
    hide *;
    var second := sorted[percents[i]][m];
    var seed, next := Entry(k, [first], 100 - percents[k]), Entry(i, [first] + [second], percents[h]);
    TopTwoSeed(percents, sorted, k, j, first);
    NothingShared(third, first);
    NothingShared(third, second);
    NothingShared(second, first);
    forall n | 0 <= n < m ensures !Disjoint(sorted[percents[i]][n], first) {
      SomethingShared(sorted[percents[i]][n], first);
    }
    SecondRoute(percents, sorted, k, i, h, first, m);
    FreeOfBoth(third, first, second);
    var found := BestCompletion(quotes, exactIn, percents, sorted, next, maxSplits - 2, h, third);
    StepReached(percents, sorted, seed, maxSplits - 1, i, next, next.routes + [found]);
    OptimalCovers(percents, sorted, exactIn, minSplits, maxSplits, best, seed, next.routes + [found]);
    PercentsAppend(next.routes, found);
    PercentsAppend([first], second);
    SingleTotal(first);
    AsGoodTotals(exactIn, best, next.routes + [found], first.amount + second.amount + third.amount);
  }

  lemma FreeOfBoth(q: Quote, first: Quote, second: Quote)
    requires Disjoint(q, first) && Disjoint(q, second)
    ensures FreeOf(q, [first] + [second])
  {
  }

  lemma SecondRoute(percents: seq<int>, sorted: map<int, seq<Quote>>, k: nat, i: nat, h: nat, first: Quote, m: nat)
    requires i <= k < |percents| && h < |percents| && percents[i] in sorted
    requires percents[k] + percents[i] + percents[h] == 100 && 0 < percents[h]
    requires m < |sorted[percents[i]]| && Disjoint(sorted[percents[i]][m], first)
    requires forall n :: 0 <= n < m ==> !Disjoint(sorted[percents[i]][n], first)
    ensures Extend(percents, sorted, Entry(k, [first], 100 - percents[k]), i)
         == Some(Entry(i, [first] + [sorted[percents[i]][m]], percents[h]))
  {
    hide Disjoint, FreeOf;
    SharedNot(sorted[percents[i]], first, m);
    FirstFreeAt(sorted[percents[i]], [first], m);
    hide FirstFree;
  }

  lemma StepReached(percents: seq<int>, sorted: map<int, seq<Quote>>, e: Entry, layers: int, i: nat, next: Entry, allocation: seq<Quote>)
    requires i <= e.percentIndex && i < |percents| && layers > 0 && Extend(percents, sorted, e, i) == Some(next)
    requires next.remaining != 0 && Reaches(percents, sorted, next, layers - 1, allocation)
    ensures Reaches(percents, sorted, e, layers, allocation)
  {
    hide Extend;
    assert ReachesBy(percents, sorted, e, layers, allocation, i);
  }

  lemma {:induction false} FirstFreeAt(candidates: seq<Quote>, routes: seq<Quote>, m: nat)
    requires m < |candidates| && FreeOf(candidates[m], routes) && forall n :: 0 <= n < m ==> !FreeOf(candidates[n], routes)
    ensures FirstFree(candidates, routes) == Some(candidates[m])
  {
    hide FreeOf;
    if m > 0 {
      assert !FreeOf(candidates[0], routes);
      FirstFreeAt(candidates[1..], routes, m - 1);
    }
  }

  lemma PairReached(percents: seq<int>, sorted: map<int, seq<Quote>>, seed: Entry, layers: int, i: nat, found: Quote)
    requires i <= seed.percentIndex < |percents| && percents[i] == seed.remaining && layers > 0
    requires FirstFree(Candidates(sorted, percents[i]), seed.routes) == Some(found)
    ensures Reaches(percents, sorted, seed, layers, seed.routes + [found])
  {
    hide FirstFree;
    assert ReachesBy(percents, sorted, seed, layers, seed.routes + [found], i);
  }

  lemma SortedCandidates(quotes: seq<Quote>, exactIn: bool, sorted: map<int, seq<Quote>>, q: Quote) returns (candidates: seq<Quote>)
    requires Grouped(quotes, exactIn, sorted) && q in quotes
    ensures candidates == Candidates(sorted, q.percent) && q in candidates
    ensures forall i, j :: 0 <= i < j < |candidates| ==> !Better(exactIn, candidates[j].amount, candidates[i].amount)
  {
    candidates := Candidates(sorted, q.percent);
  }

  // On a list sorted best first, the first free candidate is the best free candidate.
  lemma {:induction false} FirstFreeIsBest(exactIn: bool, candidates: seq<Quote>, routes: seq<Quote>, q: Quote)
    requires forall i, j :: 0 <= i < j < |candidates| ==> !Better(exactIn, candidates[j].amount, candidates[i].amount)
    requires q in candidates && FreeOf(q, routes)
    ensures FirstFree(candidates, routes).Some?
    ensures !Better(exactIn, q.amount, FirstFree(candidates, routes).value.amount)
  {
    hide FreeOf;
    if !FreeOf(candidates[0], routes) {
      FirstFreeIsBest(exactIn, candidates[1..], routes, q);
    } else {
      var k :| 0 <= k < |candidates| && candidates[k] == q;
    }
  }
}
