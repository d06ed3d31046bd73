// Depth first enumeration of the routes between two tokens.
module RouteSearch {
  import opened Results
  import opened Sequences

  // A pool object; id is its identity.
  datatype Pool = Pool(id: nat, token0: nat, token1: nat, isCL: bool)

  const BUDGET: nat := 100_000

  predicate Involves(p: Pool, token: nat) {
    token == p.token0 || token == p.token1
  }

  function Next(p: Pool, token: nat): nat {
    if p.token0 == token then p.token1 else p.token0
  }

  // ----- what a route is -----

  // The token held after the first k pools of a path.
  function TokenAfter(tokenIn: nat, path: seq<Pool>, k: nat): nat
    requires k <= |path|
  {
    if k == 0 then tokenIn else Next(path[k - 1], TokenAfter(tokenIn, path, k - 1))
  }

  // Pools of the list, none used twice, each taking over the token the previous one delivered,
  // and tokenOut not delivered before the end.
  ghost predicate IsPrefix(pools: seq<Pool>, tokenIn: nat, tokenOut: nat, path: seq<Pool>) {
    && Distinct(path)
    && (forall k :: 0 <= k < |path| ==> path[k] in pools && Involves(path[k], TokenAfter(tokenIn, path, k)))
    && (forall k :: 0 < k < |path| ==> TokenAfter(tokenIn, path, k) != tokenOut)
  }

  ghost predicate IsRoute(pools: seq<Pool>, tokenIn: nat, tokenOut: nat, maxHops: nat, path: seq<Pool>) {
    0 < |path| <= maxHops && IsPrefix(pools, tokenIn, tokenOut, path) && TokenAfter(tokenIn, path, |path|) == tokenOut
  }

  // ----- the enumeration as a value -----

  function Enumerate(pools: seq<Pool>, tokenOut: nat, maxHops: nat, token: nat, path: seq<Pool>): seq<seq<Pool>>
    requires |path| <= maxHops
    decreases maxHops - |path|, |pools| + 1
  {
    if path != [] && token == tokenOut then [path]
    else if |path| == maxHops then []
    else EnumerateTo(pools, tokenOut, maxHops, token, path, |pools|)
  }

  // What a single pool of the list contributes, and what it costs.
  function Branch(pools: seq<Pool>, tokenOut: nat, maxHops: nat, token: nat, path: seq<Pool>, pool: Pool): seq<seq<Pool>>
    requires |path| < maxHops
    decreases maxHops - |path|, 0
  {
    if pool in path || !Involves(pool, token) then []
    else Enumerate(pools, tokenOut, maxHops, Next(pool, token), path + [pool])
  }

  function EnumerateTo(pools: seq<Pool>, tokenOut: nat, maxHops: nat, token: nat, path: seq<Pool>, i: nat): seq<seq<Pool>>
    requires |path| < maxHops && i <= |pools|
    decreases maxHops - |path|, i
  {
    if i == 0 then []
    else EnumerateTo(pools, tokenOut, maxHops, token, path, i - 1) + Branch(pools, tokenOut, maxHops, token, path, pools[i - 1])
  }

  // Pools examined on the way.
  function Cost(pools: seq<Pool>, tokenOut: nat, maxHops: nat, token: nat, path: seq<Pool>): nat
    requires |path| <= maxHops
    decreases maxHops - |path|, |pools| + 1
  {
    if (path != [] && token == tokenOut) || |path| == maxHops then 0
    else CostTo(pools, tokenOut, maxHops, token, path, |pools|)
  }

  function BranchCost(pools: seq<Pool>, tokenOut: nat, maxHops: nat, token: nat, path: seq<Pool>, pool: Pool): nat
    requires |path| < maxHops
    decreases maxHops - |path|, 0
  {
    if pool in path || !Involves(pool, token) then 1
    else 1 + Cost(pools, tokenOut, maxHops, Next(pool, token), path + [pool])
  }

  function CostTo(pools: seq<Pool>, tokenOut: nat, maxHops: nat, token: nat, path: seq<Pool>, i: nat): nat
    requires |path| < maxHops && i <= |pools|
    decreases maxHops - |path|, i
  {
    if i == 0 then 0
    else CostTo(pools, tokenOut, maxHops, token, path, i - 1) + BranchCost(pools, tokenOut, maxHops, token, path, pools[i - 1])
  }

  lemma {:induction false} CostToMono(pools: seq<Pool>, tokenOut: nat, maxHops: nat, token: nat, path: seq<Pool>, i: nat, j: nat)
    requires |path| < maxHops && i <= j <= |pools|
    ensures CostTo(pools, tokenOut, maxHops, token, path, i) <= CostTo(pools, tokenOut, maxHops, token, path, j)
    decreases j
  {
    if i < j {
      CostToMono(pools, tokenOut, maxHops, token, path, i, j - 1);
    }
  }

  // What starting on a prefix, or trying one more pool of the list, adds.
  lemma WalkParts(pools: seq<Pool>, tokenOut: nat, maxHops: nat, token: nat, path: seq<Pool>)
    requires |path| <= maxHops
    ensures path != [] && token == tokenOut ==>
      Enumerate(pools, tokenOut, maxHops, token, path) == [path] && Cost(pools, tokenOut, maxHops, token, path) == 0
    ensures !(path != [] && token == tokenOut) && |path| == maxHops ==>
      Enumerate(pools, tokenOut, maxHops, token, path) == [] && Cost(pools, tokenOut, maxHops, token, path) == 0
    ensures !(path != [] && token == tokenOut) && |path| < maxHops ==>
      && Enumerate(pools, tokenOut, maxHops, token, path) == EnumerateTo(pools, tokenOut, maxHops, token, path, |pools|)
      && Cost(pools, tokenOut, maxHops, token, path) == CostTo(pools, tokenOut, maxHops, token, path, |pools|)
      && EnumerateTo(pools, tokenOut, maxHops, token, path, 0) == [] && CostTo(pools, tokenOut, maxHops, token, path, 0) == 0
  {
  }

  lemma TryPool(pools: seq<Pool>, tokenOut: nat, maxHops: nat, token: nat, path: seq<Pool>, i: nat)
    requires |path| < maxHops && i < |pools|
    ensures
      var before, after := EnumerateTo(pools, tokenOut, maxHops, token, path, i), EnumerateTo(pools, tokenOut, maxHops, token, path, i + 1);
      var cost, costAfter := CostTo(pools, tokenOut, maxHops, token, path, i), CostTo(pools, tokenOut, maxHops, token, path, i + 1);
      if pools[i] in path || !Involves(pools[i], token) then after == before && costAfter == cost + 1
      else
        && after == before + Enumerate(pools, tokenOut, maxHops, Next(pools[i], token), path + [pools[i]])
        && costAfter == cost + 1 + Cost(pools, tokenOut, maxHops, Next(pools[i], token), path + [pools[i]])
  {
    hide Enumerate, Cost;
  }

  // ----- the walk -----

  class Walker {
    const pools: seq<Pool>
    const tokenOut: nat
    const maxHops: nat
    var currentPath: seq<Pool>
    var visited: set<Pool>
    var paths: seq<seq<Pool>>
    var examined: nat

    constructor (pools: seq<Pool>, tokenOut: nat, maxHops: nat)
      ensures this.pools == pools && this.tokenOut == tokenOut && this.maxHops == maxHops
      ensures currentPath == [] && visited == {} && paths == [] && examined == 0
    {
      this.pools, this.tokenOut, this.maxHops := pools, tokenOut, maxHops;
      currentPath, visited, paths, examined := [], {}, [], 0;
    }

    predicate Consistent()
      reads this
    {
      |currentPath| <= maxHops && visited == (set p | p in currentPath)
    }

    // Collects exactly the enumeration below the current path, restores path and visited set, and
    // throws exactly when the budget does not cover the pools to examine.
    method Walk(token: nat) returns (ok: bool)
      requires Consistent() && examined <= BUDGET
      modifies this
      ensures ok <==> old(examined) + Cost(pools, tokenOut, maxHops, token, old(currentPath)) <= BUDGET
      ensures ok ==> currentPath == old(currentPath) && visited == old(visited)
      ensures ok ==> paths == old(paths) + Enumerate(pools, tokenOut, maxHops, token, old(currentPath))
      ensures ok ==> examined == old(examined) + Cost(pools, tokenOut, maxHops, token, old(currentPath))
      decreases maxHops - |currentPath|
    {
      hide Enumerate, Cost, EnumerateTo, CostTo;
      WalkParts(pools, tokenOut, maxHops, token, currentPath);
      if |currentPath| > 0 && token == tokenOut {
        paths := paths + [currentPath];
        return true;
      }
      if |currentPath| == maxHops {
        return true;
      }
      ghost var path, seen := currentPath, visited;
      for i := 0 to |pools|
        invariant currentPath == path && visited == seen
        invariant paths == old(paths) + EnumerateTo(pools, tokenOut, maxHops, token, path, i)
        invariant examined == old(examined) + CostTo(pools, tokenOut, maxHops, token, path, i) <= BUDGET
      {
        var pool := pools[i];
        TryPool(pools, tokenOut, maxHops, token, path, i);
        CostToMono(pools, tokenOut, maxHops, token, path, i + 1, |pools|);
        examined := examined + 1;
        if examined > BUDGET {
          return false;
        }
        if pool in visited || !Involves(pool, token) {
          continue;
        }
        var nextToken := if pool.token0 == token then pool.token1 else pool.token0;
        currentPath := currentPath + [pool];
        visited := visited + {pool};
        var inner := Walk(nextToken);
        if !inner {
          return false;
        }
        visited := visited - {pool};
        currentPath := currentPath[..|currentPath| - 1];
      }
      ok := true;
    }
  }

  // ----- exactness -----

  lemma {:induction false} TokenAfterPrefix(tokenIn: nat, p: seq<Pool>, q: seq<Pool>, k: nat)
    requires p <= q && k <= |p|
    ensures TokenAfter(tokenIn, q, k) == TokenAfter(tokenIn, p, k)
  {
    if k > 0 {
      TokenAfterPrefix(tokenIn, p, q, k - 1);
    }
  }

  // A route extends a prefix either not at all or by one pool that may be tried next.
  lemma PrefixOfRoute(pools: seq<Pool>, tokenIn: nat, tokenOut: nat, path: seq<Pool>, route: seq<Pool>)
    requires IsPrefix(pools, tokenIn, tokenOut, route) && path < route
    ensures var pool := route[|path|]; var token := TokenAfter(tokenIn, path, |path|);
            && pool in pools && pool !in path && Involves(pool, token) && path + [pool] <= route
            && (path != [] ==> token != tokenOut)
  {
    var pool := route[|path|];
    TokenAfterPrefix(tokenIn, path, route, |path|);
    forall i | 0 <= i < |path| ensures path[i] != pool {
      assert route[i] == path[i];
    }
  }

  lemma ExtendPrefix(pools: seq<Pool>, tokenIn: nat, tokenOut: nat, path: seq<Pool>, pool: Pool)
    requires IsPrefix(pools, tokenIn, tokenOut, path)
    requires pool in pools && pool !in path && Involves(pool, TokenAfter(tokenIn, path, |path|))
    requires path != [] ==> TokenAfter(tokenIn, path, |path|) != tokenOut
    ensures var longer := path + [pool];
            && IsPrefix(pools, tokenIn, tokenOut, longer)
            && TokenAfter(tokenIn, longer, |longer|) == Next(pool, TokenAfter(tokenIn, path, |path|))
  {
    var longer := path + [pool];
    assert path <= longer && longer[|path|] == pool;
    forall k | 0 <= k <= |path| ensures TokenAfter(tokenIn, longer, k) == TokenAfter(tokenIn, path, k) {
      TokenAfterPrefix(tokenIn, path, longer, k);
    }
    assert TokenAfter(tokenIn, longer, |longer|) == Next(longer[|path|], TokenAfter(tokenIn, longer, |path|));
    hide TokenAfter, Involves, Next;
    forall k | 0 <= k < |longer| ensures longer[k] in pools && Involves(longer[k], TokenAfter(tokenIn, longer, k)) {
      if k < |path| {
        assert longer[k] == path[k];
      }
    }
    forall k | 0 < k < |longer| ensures TokenAfter(tokenIn, longer, k) != tokenOut {
      if k < |path| {
        assert TokenAfter(tokenIn, path, k) != tokenOut;
      }
    }
  }

  // The enumeration below a prefix contains exactly the routes that extend the prefix.
  lemma {:induction false} EnumerateExact(pools: seq<Pool>, tokenIn: nat, tokenOut: nat, maxHops: nat, path: seq<Pool>, route: seq<Pool>)
    requires |path| <= maxHops && IsPrefix(pools, tokenIn, tokenOut, path)
    ensures route in Enumerate(pools, tokenOut, maxHops, TokenAfter(tokenIn, path, |path|), path)
       <==> path <= route && IsRoute(pools, tokenIn, tokenOut, maxHops, route)
    decreases maxHops - |path|, |pools| + 1
  {
    var token := TokenAfter(tokenIn, path, |path|);
    if path <= route && IsRoute(pools, tokenIn, tokenOut, maxHops, route) && path != route {
      PrefixOfRoute(pools, tokenIn, tokenOut, path, route);
    }
    if path != [] && token == tokenOut {
    } else if |path| == maxHops {
    } else {
      EnumerateToExact(pools, tokenIn, tokenOut, maxHops, path, |pools|, route);
    }
  }

  // The routes below a prefix that continue with one of the first i pools of the list.
  lemma {:induction false} EnumerateToExact(pools: seq<Pool>, tokenIn: nat, tokenOut: nat, maxHops: nat, path: seq<Pool>, i: nat, route: seq<Pool>)
    requires |path| < maxHops && i <= |pools| && IsPrefix(pools, tokenIn, tokenOut, path)
    requires path != [] ==> TokenAfter(tokenIn, path, |path|) != tokenOut
    ensures route in EnumerateTo(pools, tokenOut, maxHops, TokenAfter(tokenIn, path, |path|), path, i)
       <==> path < route && route[|path|] in pools[..i] && IsRoute(pools, tokenIn, tokenOut, maxHops, route)
    decreases maxHops - |path|, i
  {
    if i > 0 {
      var token, pool := TokenAfter(tokenIn, path, |path|), pools[i - 1];
      EnumerateToExact(pools, tokenIn, tokenOut, maxHops, path, i - 1, route);
      BranchExact(pools, tokenIn, tokenOut, maxHops, path, pool, route);
      assert pools[..i] == pools[..i - 1] + [pool];
      hide Branch, IsRoute, IsPrefix;
    }
  }

  lemma {:induction false} BranchExact(pools: seq<Pool>, tokenIn: nat, tokenOut: nat, maxHops: nat, path: seq<Pool>, pool: Pool, route: seq<Pool>)
    requires |path| < maxHops && pool in pools && IsPrefix(pools, tokenIn, tokenOut, path)
    requires path != [] ==> TokenAfter(tokenIn, path, |path|) != tokenOut
    ensures route in Branch(pools, tokenOut, maxHops, TokenAfter(tokenIn, path, |path|), path, pool)
       <==> path < route && route[|path|] == pool && IsRoute(pools, tokenIn, tokenOut, maxHops, route)
    decreases maxHops - |path|, 0
  {
    var token := TokenAfter(tokenIn, path, |path|);
    if path < route && route[|path|] == pool && IsRoute(pools, tokenIn, tokenOut, maxHops, route) {
      PrefixOfRoute(pools, tokenIn, tokenOut, path, route);
    }
    if pool !in path && Involves(pool, token) {
      ExtendPrefix(pools, tokenIn, tokenOut, path, pool);
      EnumerateExact(pools, tokenIn, tokenOut, maxHops, path + [pool], route);
    }
  }

  // ----- no duplicates -----

  lemma {:induction false} EnumerateDistinct(pools: seq<Pool>, tokenOut: nat, maxHops: nat, token: nat, path: seq<Pool>)
    requires |path| <= maxHops && Distinct(pools)
    ensures Distinct(Enumerate(pools, tokenOut, maxHops, token, path))
    ensures forall route :: route in Enumerate(pools, tokenOut, maxHops, token, path) ==> path <= route
    decreases maxHops - |path|, |pools| + 1
  {
    if !(path != [] && token == tokenOut) && |path| < maxHops {
      EnumerateToDistinct(pools, tokenOut, maxHops, token, path, |pools|);
    }
  }

  lemma {:induction false} EnumerateToDistinct(pools: seq<Pool>, tokenOut: nat, maxHops: nat, token: nat, path: seq<Pool>, i: nat)
    requires |path| < maxHops && i <= |pools| && Distinct(pools)
    ensures Distinct(EnumerateTo(pools, tokenOut, maxHops, token, path, i))
    ensures forall route :: route in EnumerateTo(pools, tokenOut, maxHops, token, path, i) ==>
              path < route && route[|path|] in pools[..i]
    decreases maxHops - |path|, i
  {
    if i > 0 {
      var pool := pools[i - 1];
      EnumerateToDistinct(pools, tokenOut, maxHops, token, path, i - 1);
      BranchDistinct(pools, tokenOut, maxHops, token, path, pool);
      hide Branch;
      assert pools[..i] == pools[..i - 1] + [pool];
      assert pool !in pools[..i - 1];
      DistinctConcat(EnumerateTo(pools, tokenOut, maxHops, token, path, i - 1), Branch(pools, tokenOut, maxHops, token, path, pool));
    }
  }

  lemma {:induction false} BranchDistinct(pools: seq<Pool>, tokenOut: nat, maxHops: nat, token: nat, path: seq<Pool>, pool: Pool)
    requires |path| < maxHops && Distinct(pools)
    ensures Distinct(Branch(pools, tokenOut, maxHops, token, path, pool))
    ensures forall route :: route in Branch(pools, tokenOut, maxHops, token, path, pool) ==> path < route && route[|path|] == pool
    decreases maxHops - |path|, 0
  {
    if pool !in path && Involves(pool, token) {
      EnumerateDistinct(pools, tokenOut, maxHops, Next(pool, token), path + [pool]);
      forall route | route in Branch(pools, tokenOut, maxHops, token, path, pool) ensures path < route && route[|path|] == pool {
        assert path + [pool] <= route;
        assert (path + [pool])[|path|] == pool;
      }
    }
  }

  // ----- the whole search -----

  // The paths the walk collects, before they are ranked and capped.
  method AllPaths(tokenIn: nat, tokenOut: nat, pools: seq<Pool>, maxHops: int, maxRoutes: int) returns (r: Result<seq<seq<Pool>>>)
    ensures maxHops < 1 || 3 < maxHops || maxRoutes < 1 || 60 < maxRoutes ==> r == Failure("Invalid route search limits")
    ensures 1 <= maxHops <= 3 && 1 <= maxRoutes <= 60 && |pools| > 2000 ==> r == Failure("Too many candidate pools")
    ensures 1 <= maxHops <= 3 && 1 <= maxRoutes <= 60 && |pools| <= 2000 ==>
              r == if Cost(pools, tokenOut, maxHops, tokenIn, []) <= 100_000
                   then Success(Enumerate(pools, tokenOut, maxHops, tokenIn, []))
                   else Failure("Route search budget exceeded")
  {
    if !(1 <= maxHops <= 3) || !(1 <= maxRoutes <= 60) {
      return Failure("Invalid route search limits");
    }
    if |pools| > 2000 {
      return Failure("Too many candidate pools");
    }
    var walker := new Walker(pools, tokenOut, maxHops);
    var ok := walker.Walk(tokenIn);
    if !ok {
      return Failure("Route search budget exceeded");
    }
    assert [] + Enumerate(pools, tokenOut, maxHops, tokenIn, []) == Enumerate(pools, tokenOut, maxHops, tokenIn, []);
    r := Success(walker.paths);
  }

  // Within its budget the search collects exactly the routes, each once: every sequence of at
  // most maxHops distinct pools that chains tokenIn to its first arrival at tokenOut.
  lemma SearchIsExact(pools: seq<Pool>, tokenIn: nat, tokenOut: nat, maxHops: nat)
    ensures forall route :: route in Enumerate(pools, tokenOut, maxHops, tokenIn, [])
                       <==> IsRoute(pools, tokenIn, tokenOut, maxHops, route)
    ensures Distinct(pools) ==> Distinct(Enumerate(pools, tokenOut, maxHops, tokenIn, []))
  {
    forall route ensures route in Enumerate(pools, tokenOut, maxHops, tokenIn, [])
                    <==> IsRoute(pools, tokenIn, tokenOut, maxHops, route)
    {
      EnumerateExact(pools, tokenIn, tokenOut, maxHops, [], route);
    }
    if Distinct(pools) {
      EnumerateDistinct(pools, tokenOut, maxHops, tokenIn, []);
    }
  }

  // A route in plain terms: a sequence of tokens from the input to the output, which comes last only,
  // each pair of neighbours joined by the next pool.
  ghost predicate Joins(pools: seq<Pool>, tokenIn: nat, tokenOut: nat, maxHops: nat, path: seq<Pool>, tokens: seq<nat>) {
    && 0 < |path| <= maxHops && |tokens| == |path| + 1 && Distinct(path)
    && tokens[0] == tokenIn && tokens[|path|] == tokenOut
    && (forall k :: 0 < k < |path| ==> tokens[k] != tokenOut)
    && forall k :: 0 <= k < |path| ==>
         && path[k] in pools
         && ((path[k].token0 == tokens[k] && path[k].token1 == tokens[k + 1])
             || (path[k].token1 == tokens[k] && path[k].token0 == tokens[k + 1]))
  }

  lemma RouteMeans(pools: seq<Pool>, tokenIn: nat, tokenOut: nat, maxHops: nat, path: seq<Pool>)
    ensures IsRoute(pools, tokenIn, tokenOut, maxHops, path) <==> exists tokens :: Joins(pools, tokenIn, tokenOut, maxHops, path, tokens)
  {
    hide IsRoute, Joins;
    if IsRoute(pools, tokenIn, tokenOut, maxHops, path) {
      RouteJoins(pools, tokenIn, tokenOut, maxHops, path);
    }
    if exists tokens :: Joins(pools, tokenIn, tokenOut, maxHops, path, tokens) {
      var tokens :| Joins(pools, tokenIn, tokenOut, maxHops, path, tokens);
      JoinedIsRoute(pools, tokenIn, tokenOut, maxHops, path, tokens);
    }
  }

  lemma RouteJoins(pools: seq<Pool>, tokenIn: nat, tokenOut: nat, maxHops: nat, path: seq<Pool>)
    requires IsRoute(pools, tokenIn, tokenOut, maxHops, path)
    ensures Joins(pools, tokenIn, tokenOut, maxHops, path, seq(|path| + 1, k requires 0 <= k <= |path| => TokenAfter(tokenIn, path, k)))
  {
    forall k | 0 <= k < |path|
      ensures TokenAfter(tokenIn, path, k + 1) == Next(path[k], TokenAfter(tokenIn, path, k)) && Involves(path[k], TokenAfter(tokenIn, path, k))
    {
    }
    hide TokenAfter;
  }

  lemma JoinedIsRoute(pools: seq<Pool>, tokenIn: nat, tokenOut: nat, maxHops: nat, path: seq<Pool>, tokens: seq<nat>)
    requires Joins(pools, tokenIn, tokenOut, maxHops, path, tokens)
    ensures IsRoute(pools, tokenIn, tokenOut, maxHops, path)
  {
    hide TokenAfter, Joins, Involves, Distinct;
    JoinsBounds(pools, tokenIn, tokenOut, maxHops, path, tokens);
    forall k | 0 <= k < |path|
      ensures path[k] in pools && Involves(path[k], TokenAfter(tokenIn, path, k)) && (0 < k ==> TokenAfter(tokenIn, path, k) != tokenOut)
    {
      TokensAreForced(pools, tokenIn, tokenOut, maxHops, path, tokens, k);
      JoinsAt(pools, tokenIn, tokenOut, maxHops, path, tokens, k);
    }
    TokensAreForced(pools, tokenIn, tokenOut, maxHops, path, tokens, |path|);
  }

  lemma JoinsBounds(pools: seq<Pool>, tokenIn: nat, tokenOut: nat, maxHops: nat, path: seq<Pool>, tokens: seq<nat>)
    requires Joins(pools, tokenIn, tokenOut, maxHops, path, tokens)
    ensures 0 < |path| <= maxHops && |tokens| == |path| + 1 && Distinct(path) && tokens[|path|] == tokenOut
  {
  }

  lemma JoinsAt(pools: seq<Pool>, tokenIn: nat, tokenOut: nat, maxHops: nat, path: seq<Pool>, tokens: seq<nat>, k: nat)
    requires Joins(pools, tokenIn, tokenOut, maxHops, path, tokens) && k < |path|
    ensures path[k] in pools && Involves(path[k], tokens[k]) && (0 < k ==> tokens[k] != tokenOut)
  {
    var next := tokens[k + 1];
    assert path[k].token0 == next || path[k].token1 == next;
  }

  lemma {:induction false} TokensAreForced(pools: seq<Pool>, tokenIn: nat, tokenOut: nat, maxHops: nat, path: seq<Pool>, tokens: seq<nat>, k: nat)
    requires Joins(pools, tokenIn, tokenOut, maxHops, path, tokens) && k <= |path|
    ensures TokenAfter(tokenIn, path, k) == tokens[k]
  {
    if k > 0 {
      TokensAreForced(pools, tokenIn, tokenOut, maxHops, path, tokens, k - 1);
    }
  }

  // ----- what the search costs -----

  // The paths the walk goes on from, and those it reaches through one more pool of the list.
  function Expanded(pools: seq<Pool>, tokenOut: nat, maxHops: nat, token: nat, path: seq<Pool>): seq<seq<Pool>>
    requires |path| <= maxHops
    decreases maxHops - |path|, |pools| + 1
  {
    if (path != [] && token == tokenOut) || |path| == maxHops then []
    else [path] + ExpandedTo(pools, tokenOut, maxHops, token, path, |pools|)
  }

  function ExpandedBy(pools: seq<Pool>, tokenOut: nat, maxHops: nat, token: nat, path: seq<Pool>, pool: Pool): seq<seq<Pool>>
    requires |path| < maxHops
    decreases maxHops - |path|, 0
  {
    if pool in path || !Involves(pool, token) then []
    else Expanded(pools, tokenOut, maxHops, Next(pool, token), path + [pool])
  }

  function ExpandedTo(pools: seq<Pool>, tokenOut: nat, maxHops: nat, token: nat, path: seq<Pool>, i: nat): seq<seq<Pool>>
    requires |path| < maxHops && i <= |pools|
    decreases maxHops - |path|, i
  {
    if i == 0 then []
    else ExpandedTo(pools, tokenOut, maxHops, token, path, i - 1) + ExpandedBy(pools, tokenOut, maxHops, token, path, pools[i - 1])
  }

  // Every path the walk goes on from costs one unit for each pool of the list.
  lemma {:induction false} CostCountsPaths(pools: seq<Pool>, tokenOut: nat, maxHops: nat, token: nat, path: seq<Pool>)
    requires |path| <= maxHops
    ensures Cost(pools, tokenOut, maxHops, token, path) == |pools| * |Expanded(pools, tokenOut, maxHops, token, path)|
    decreases maxHops - |path|, |pools| + 1
  {
    if !(path != [] && token == tokenOut) && |path| < maxHops {
      CostToCounts(pools, tokenOut, maxHops, token, path, |pools|);
      var below := |ExpandedTo(pools, tokenOut, maxHops, token, path, |pools|)|;
      assert |pools| * (1 + below) == |pools| + |pools| * below;
    }
  }

  lemma {:induction false} CostToCounts(pools: seq<Pool>, tokenOut: nat, maxHops: nat, token: nat, path: seq<Pool>, i: nat)
    requires |path| < maxHops && i <= |pools|
    ensures CostTo(pools, tokenOut, maxHops, token, path, i) == i + |pools| * |ExpandedTo(pools, tokenOut, maxHops, token, path, i)|
    decreases maxHops - |path|, i
  {
    if i > 0 {
      var pool := pools[i - 1];
      CostToCounts(pools, tokenOut, maxHops, token, path, i - 1);
      if pool !in path && Involves(pool, token) {
        CostCountsPaths(pools, tokenOut, maxHops, Next(pool, token), path + [pool]);
      }
      var a, b := |ExpandedTo(pools, tokenOut, maxHops, token, path, i - 1)|, |ExpandedBy(pools, tokenOut, maxHops, token, path, pool)|;
      assert |pools| * (a + b) == |pools| * a + |pools| * b;
    }
  }

  // A path to go on from: pools chained from the input, too few and not yet at the output.
  ghost predicate IsOpen(pools: seq<Pool>, tokenIn: nat, tokenOut: nat, maxHops: nat, path: seq<Pool>) {
    |path| < maxHops && IsPrefix(pools, tokenIn, tokenOut, path) && (path == [] || TokenAfter(tokenIn, path, |path|) != tokenOut)
  }

  lemma {:induction false} ExpandedExact(pools: seq<Pool>, tokenIn: nat, tokenOut: nat, maxHops: nat, path: seq<Pool>, open: seq<Pool>)
    requires |path| <= maxHops && IsPrefix(pools, tokenIn, tokenOut, path)
    ensures open in Expanded(pools, tokenOut, maxHops, TokenAfter(tokenIn, path, |path|), path)
       <==> path <= open && IsOpen(pools, tokenIn, tokenOut, maxHops, open)
    decreases maxHops - |path|, |pools| + 1
  {
    var token := TokenAfter(tokenIn, path, |path|);
    if path <= open && IsOpen(pools, tokenIn, tokenOut, maxHops, open) && path != open {
      PrefixOfRoute(pools, tokenIn, tokenOut, path, open);
    }
    if (path != [] && token == tokenOut) || |path| == maxHops {
    } else {
      ExpandedToExact(pools, tokenIn, tokenOut, maxHops, path, |pools|, open);
    }
  }

  lemma {:induction false} ExpandedToExact(pools: seq<Pool>, tokenIn: nat, tokenOut: nat, maxHops: nat, path: seq<Pool>, i: nat, open: seq<Pool>)
    requires |path| < maxHops && i <= |pools| && IsPrefix(pools, tokenIn, tokenOut, path)
    requires path != [] ==> TokenAfter(tokenIn, path, |path|) != tokenOut
    ensures open in ExpandedTo(pools, tokenOut, maxHops, TokenAfter(tokenIn, path, |path|), path, i)
       <==> path < open && open[|path|] in pools[..i] && IsOpen(pools, tokenIn, tokenOut, maxHops, open)
    decreases maxHops - |path|, i
  {
    if i > 0 {
      var pool := pools[i - 1];
      ExpandedToExact(pools, tokenIn, tokenOut, maxHops, path, i - 1, open);
      ExpandedByExact(pools, tokenIn, tokenOut, maxHops, path, pool, open);
      assert pools[..i] == pools[..i - 1] + [pool];
      hide ExpandedBy, IsOpen, IsPrefix;
    }
  }

  lemma {:induction false} ExpandedByExact(pools: seq<Pool>, tokenIn: nat, tokenOut: nat, maxHops: nat, path: seq<Pool>, pool: Pool, open: seq<Pool>)
    requires |path| < maxHops && pool in pools && IsPrefix(pools, tokenIn, tokenOut, path)
    requires path != [] ==> TokenAfter(tokenIn, path, |path|) != tokenOut
    ensures open in ExpandedBy(pools, tokenOut, maxHops, TokenAfter(tokenIn, path, |path|), path, pool)
       <==> path < open && open[|path|] == pool && IsOpen(pools, tokenIn, tokenOut, maxHops, open)
    decreases maxHops - |path|, 0
  {
    var token := TokenAfter(tokenIn, path, |path|);
    if path < open && open[|path|] == pool && IsOpen(pools, tokenIn, tokenOut, maxHops, open) {
      PrefixOfRoute(pools, tokenIn, tokenOut, path, open);
    }
    if pool !in path && Involves(pool, token) {
      ExtendPrefix(pools, tokenIn, tokenOut, path, pool);
      ExpandedExact(pools, tokenIn, tokenOut, maxHops, path + [pool], open);
    }
  }

  lemma {:induction false} ExpandedDistinct(pools: seq<Pool>, tokenOut: nat, maxHops: nat, token: nat, path: seq<Pool>)
    requires |path| <= maxHops && Distinct(pools)
    ensures Distinct(Expanded(pools, tokenOut, maxHops, token, path))
    ensures forall open :: open in Expanded(pools, tokenOut, maxHops, token, path) ==> path <= open
    decreases maxHops - |path|, |pools| + 1
  {
    if !(path != [] && token == tokenOut) && |path| < maxHops {
      ExpandedToDistinct(pools, tokenOut, maxHops, token, path, |pools|);
      DistinctConcat([path], ExpandedTo(pools, tokenOut, maxHops, token, path, |pools|));
    }
  }

  lemma {:induction false} ExpandedToDistinct(pools: seq<Pool>, tokenOut: nat, maxHops: nat, token: nat, path: seq<Pool>, i: nat)
    requires |path| < maxHops && i <= |pools| && Distinct(pools)
    ensures Distinct(ExpandedTo(pools, tokenOut, maxHops, token, path, i))
    ensures forall open :: open in ExpandedTo(pools, tokenOut, maxHops, token, path, i) ==> path < open && open[|path|] in pools[..i]
    decreases maxHops - |path|, i
  {
    if i > 0 {
      var pool := pools[i - 1];
      ExpandedToDistinct(pools, tokenOut, maxHops, token, path, i - 1);
      ExpandedByDistinct(pools, tokenOut, maxHops, token, path, pool);
      hide ExpandedBy;
      assert pools[..i] == pools[..i - 1] + [pool];
      assert pool !in pools[..i - 1];
      DistinctConcat(ExpandedTo(pools, tokenOut, maxHops, token, path, i - 1), ExpandedBy(pools, tokenOut, maxHops, token, path, pool));
    }
  }

  lemma {:induction false} ExpandedByDistinct(pools: seq<Pool>, tokenOut: nat, maxHops: nat, token: nat, path: seq<Pool>, pool: Pool)
    requires |path| < maxHops && Distinct(pools)
    ensures Distinct(ExpandedBy(pools, tokenOut, maxHops, token, path, pool))
    ensures forall open :: open in ExpandedBy(pools, tokenOut, maxHops, token, path, pool) ==> path < open && open[|path|] == pool
    decreases maxHops - |path|, 0
  {
    if pool !in path && Involves(pool, token) {
      ExpandedDistinct(pools, tokenOut, maxHops, Next(pool, token), path + [pool]);
      forall open | open in ExpandedBy(pools, tokenOut, maxHops, token, path, pool) ensures path < open && open[|path|] == pool {
        assert path + [pool] <= open;
        assert (path + [pool])[|path|] == pool;
      }
    }
  }

  // What the budget pays for: each path the search goes on from, once, times the number of pools.
  lemma BudgetPaysFor(pools: seq<Pool>, tokenIn: nat, tokenOut: nat, maxHops: nat) returns (open: seq<seq<Pool>>)
    requires Distinct(pools)
    ensures Cost(pools, tokenOut, maxHops, tokenIn, []) == |pools| * |open| && Distinct(open)
    ensures forall path :: path in open <==> IsOpen(pools, tokenIn, tokenOut, maxHops, path)
  {
    open := Expanded(pools, tokenOut, maxHops, tokenIn, []);
    CostCountsPaths(pools, tokenOut, maxHops, tokenIn, []);
    ExpandedDistinct(pools, tokenOut, maxHops, tokenIn, []);
    hide Expanded, Cost, IsOpen;
    forall path ensures path in open <==> IsOpen(pools, tokenIn, tokenOut, maxHops, path) {
      ExpandedExact(pools, tokenIn, tokenOut, maxHops, [], path);
    }
  }

  // ----- sorting the paths by protocol -----

  datatype Routes = Routes(v2: seq<seq<Pool>>, cl: seq<seq<Pool>>, mixed: seq<seq<Pool>>)

  datatype Protocol = V2 | CL | Mixed

  function ProtocolOf(path: seq<Pool>): Protocol {
    if forall i :: 0 <= i < |path| ==> path[i].isCL then CL
    else if forall i :: 0 <= i < |path| ==> !path[i].isCL then V2
    else Mixed
  }

  // The checks of the route constructors: the path threads through the pools and its last pool
  // involves the output.
  predicate Constructs(path: seq<Pool>, tokenIn: nat, tokenOut: nat) {
    && path != [] && Involves(path[|path| - 1], tokenOut)
    && forall k :: 0 <= k < |path| ==> Involves(path[k], TokenAfter(tokenIn, path, k))
  }

  // The paths of one protocol that form a route, in order.
  function OfProtocol(paths: seq<seq<Pool>>, protocol: Protocol, tokenIn: nat, tokenOut: nat): seq<seq<Pool>> {
    if paths == [] then []
    else
      var rest := OfProtocol(paths[..|paths| - 1], protocol, tokenIn, tokenOut);
      var path := paths[|paths| - 1];
      if ProtocolOf(path) == protocol && Constructs(path, tokenIn, tokenOut) then rest + [path] else rest
  }

  function Capped(routes: seq<seq<Pool>>, limit: nat): seq<seq<Pool>> {
    if |routes| <= limit then routes else routes[..limit]
  }

  method Classify(paths: seq<seq<Pool>>, tokenIn: nat, tokenOut: nat, includeMixed: bool, maxRoutes: nat) returns (r: Routes)
    ensures var v2 := OfProtocol(paths, V2, tokenIn, tokenOut);
            r.v2 <= v2 && |r.v2| == if |v2| < maxRoutes then |v2| else maxRoutes
    ensures var cl := OfProtocol(paths, CL, tokenIn, tokenOut);
            r.cl <= cl && |r.cl| == if |cl| < maxRoutes then |cl| else maxRoutes
    ensures var mixed := OfProtocol(paths, Mixed, tokenIn, tokenOut);
            if includeMixed then r.mixed <= mixed && |r.mixed| == (if |mixed| < maxRoutes then |mixed| else maxRoutes)
            else r.mixed == []
  {
    var v2, cl, mixed: seq<seq<Pool>> := [], [], [];
    for i := 0 to |paths|
      invariant v2 == OfProtocol(paths[..i], V2, tokenIn, tokenOut)
      invariant cl == OfProtocol(paths[..i], CL, tokenIn, tokenOut)
      invariant mixed == if includeMixed then OfProtocol(paths[..i], Mixed, tokenIn, tokenOut) else []
    {
      assert paths[..i + 1][..i] == paths[..i];
      var protocol := ProtocolOf(paths[i]);
      if Constructs(paths[i], tokenIn, tokenOut) {
        match protocol {
          case CL => cl := cl + [paths[i]];
          case V2 => v2 := v2 + [paths[i]];
          case Mixed => if includeMixed { mixed := mixed + [paths[i]]; }
        }
      }
    }
    assert paths[..|paths|] == paths;
    r := Routes(Capped(v2, maxRoutes), Capped(cl, maxRoutes), Capped(mixed, maxRoutes));
  }

  // No collected path is dropped by a route constructor: each route of the search appears in the
  // list of its own protocol and in no other, whatever order the ranking put the paths in.
  lemma NothingIsDropped(pools: seq<Pool>, tokenIn: nat, tokenOut: nat, maxHops: nat, paths: seq<seq<Pool>>, protocol: Protocol, route: seq<Pool>)
    requires forall path :: path in paths ==> IsRoute(pools, tokenIn, tokenOut, maxHops, path)
    ensures route in OfProtocol(paths, protocol, tokenIn, tokenOut) <==>
              && route in paths
              && (protocol == CL <==> forall p :: p in route ==> p.isCL)
              && (protocol == V2 <==> forall p :: p in route ==> !p.isCL)
  {
    hide OfProtocol, ProtocolOf;
    OfItsProtocol(pools, tokenIn, tokenOut, maxHops, paths, protocol, route);
    if route in paths {
      ProtocolMeans(route, protocol);
    }
  }

  lemma {:induction false} OfItsProtocol(pools: seq<Pool>, tokenIn: nat, tokenOut: nat, maxHops: nat, paths: seq<seq<Pool>>, protocol: Protocol, route: seq<Pool>)
    requires forall path :: path in paths ==> IsRoute(pools, tokenIn, tokenOut, maxHops, path)
    ensures route in OfProtocol(paths, protocol, tokenIn, tokenOut) <==> route in paths && ProtocolOf(route) == protocol
    decreases |paths|
  {
    hide IsRoute, Constructs, ProtocolOf;
    if paths != [] {
      var path := paths[|paths| - 1];
      OfItsProtocol(pools, tokenIn, tokenOut, maxHops, paths[..|paths| - 1], protocol, route);
      RouteConstructs(pools, tokenIn, tokenOut, maxHops, path);
      assert paths == paths[..|paths| - 1] + [path];
    }
  }

  lemma ProtocolMeans(route: seq<Pool>, protocol: Protocol)
    requires route != []
    ensures ProtocolOf(route) == protocol <==>
              (protocol == CL <==> forall p :: p in route ==> p.isCL) && (protocol == V2 <==> forall p :: p in route ==> !p.isCL)
  {
    assert route[0] in route;
    if ProtocolOf(route) == CL {
      assert forall p :: p in route ==> p.isCL;
    } else if ProtocolOf(route) == V2 {
      assert forall p :: p in route ==> !p.isCL;
    } else {
      var i :| 0 <= i < |route| && !route[i].isCL;
      var j :| 0 <= j < |route| && route[j].isCL;
      assert route[i] in route && route[j] in route;
    }
  }

  // What is in a list was in the ranking, starts at the input and is completed by a pool of the output.
  lemma {:induction false} OnlyRoutesAreKept(paths: seq<seq<Pool>>, protocol: Protocol, tokenIn: nat, tokenOut: nat, route: seq<Pool>)
    requires route in OfProtocol(paths, protocol, tokenIn, tokenOut)
    ensures route in paths && route != []
    ensures tokenIn == route[0].token0 || tokenIn == route[0].token1
    ensures tokenOut == route[|route| - 1].token0 || tokenOut == route[|route| - 1].token1
    decreases |paths|
  {
    KeptLast(paths, protocol, tokenIn, tokenOut, route);
    hide OfProtocol, Constructs;
    if route in OfProtocol(paths[..|paths| - 1], protocol, tokenIn, tokenOut) {
      OnlyRoutesAreKept(paths[..|paths| - 1], protocol, tokenIn, tokenOut, route);
    } else {
      ConstructedEnds(route, tokenIn, tokenOut);
    }
  }

  lemma KeptLast(paths: seq<seq<Pool>>, protocol: Protocol, tokenIn: nat, tokenOut: nat, route: seq<Pool>)
    requires route in OfProtocol(paths, protocol, tokenIn, tokenOut)
    ensures paths != []
    ensures route in OfProtocol(paths[..|paths| - 1], protocol, tokenIn, tokenOut)
         || (route == paths[|paths| - 1] && Constructs(route, tokenIn, tokenOut))
  {
    hide Constructs, ProtocolOf;
  }

  lemma ConstructedEnds(route: seq<Pool>, tokenIn: nat, tokenOut: nat)
    requires Constructs(route, tokenIn, tokenOut)
    ensures route != [] && (tokenIn == route[0].token0 || tokenIn == route[0].token1)
    ensures tokenOut == route[|route| - 1].token0 || tokenOut == route[|route| - 1].token1
  {
    assert Involves(route[0], TokenAfter(tokenIn, route, 0));
  }

  // The lists keep the order of the ranking.
  lemma {:induction false} OrderIsKept(a: seq<seq<Pool>>, b: seq<seq<Pool>>, protocol: Protocol, tokenIn: nat, tokenOut: nat)
    ensures OfProtocol(a + b, protocol, tokenIn, tokenOut) ==
              OfProtocol(a, protocol, tokenIn, tokenOut) + OfProtocol(b, protocol, tokenIn, tokenOut)
    decreases |b|
  {
    if b == [] {
      assert a + b == a;
    } else {
      assert (a + b)[..|a + b| - 1] == a + b[..|b| - 1];
      OrderIsKept(a, b[..|b| - 1], protocol, tokenIn, tokenOut);
    }
  }

  lemma RouteConstructs(pools: seq<Pool>, tokenIn: nat, tokenOut: nat, maxHops: nat, path: seq<Pool>)
    requires IsRoute(pools, tokenIn, tokenOut, maxHops, path)
    ensures Constructs(path, tokenIn, tokenOut)
  {
    assert TokenAfter(tokenIn, path, |path|) == Next(path[|path| - 1], TokenAfter(tokenIn, path, |path| - 1));
  }

  // In particular a route may pass through its input token again.
  lemma RevisitIsKept()
    ensures var ab, ba, ac := Pool(1, 10, 20, true), Pool(2, 10, 20, false), Pool(3, 10, 30, false);
            var route := [ab, ba, ac];
            && IsRoute([ab, ba, ac], 10, 30, 3, route)
            && TokenAfter(10, route, 2) == 10
            && Constructs(route, 10, 30) && ProtocolOf(route) == Mixed
  {
    var ab, ba, ac := Pool(1, 10, 20, true), Pool(2, 10, 20, false), Pool(3, 10, 30, false);
    var route := [ab, ba, ac];
    assert TokenAfter(10, route, 1) == 20 && TokenAfter(10, route, 2) == 10 && TokenAfter(10, route, 3) == 30;
    assert route[0].isCL && !route[1].isCL;
    RouteConstructs([ab, ba, ac], 10, 30, 3, route);
  }
}
