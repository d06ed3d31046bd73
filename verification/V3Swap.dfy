// The swap loop of a concentrated liquidity pool.
module V3Swap {
  import opened Results
  import opened TickMath
  import opened TickOfPrice
  import opened TickList
  import opened SwapMath

  // ----- ticks and liquidity -----

  // Liquidity in range at a tick: the sum of the net liquidity of all ticks at or below it.
  function NetBelow(ticks: seq<Tick>, tick: int): int {
    if ticks == [] then 0
    else (if ticks[0].index <= tick then ticks[0].liquidityNet else 0) + NetBelow(ticks[1..], tick)
  }

  ghost predicate GoodTicks(ticks: seq<Tick>, spacing: int) {
    && spacing > 0 && StrictlySorted(ticks) && Spaced(ticks, spacing)
    && (forall i :: 0 <= i < |ticks| ==> MIN_TICK <= ticks[i].index <= MAX_TICK)
    && (forall t :: 0 <= NetBelow(ticks, t))
  }

  lemma TailInitialised(ticks: seq<Tick>, t: int)
    requires ticks != []
    ensures Initialised(ticks[1..], t) ==> Initialised(ticks, t)
    ensures Initialised(ticks[1..], t) && StrictlySorted(ticks) ==> ticks[0].index < t
  {
    if Initialised(ticks[1..], t) {
      var i :| 0 <= i < |ticks[1..]| && ticks[1..][i].index == t;
      assert ticks[i + 1].index == t;
    }
  }

  // Between two ticks with no initialised tick in (low, high] the liquidity does not change.
  lemma {:induction false} NetUnchanged(ticks: seq<Tick>, low: int, high: int)
    requires low <= high && forall t :: low < t <= high ==> !Initialised(ticks, t)
    ensures NetBelow(ticks, low) == NetBelow(ticks, high)
  {
    if ticks != [] {
      forall t | low < t <= high ensures !Initialised(ticks[1..], t) {
        TailInitialised(ticks, t);
      }
      NetUnchanged(ticks[1..], low, high);
      assert Initialised(ticks, ticks[0].index);
    }
  }

  // Crossing an initialised tick changes it by that tick's net liquidity.
  lemma {:induction false} NetCrossed(ticks: seq<Tick>, t: Tick)
    requires StrictlySorted(ticks) && t in ticks
    ensures NetBelow(ticks, t.index) == NetBelow(ticks, t.index - 1) + t.liquidityNet
  {
    var rest := ticks[1..];
    if t == ticks[0] {
      forall u | t.index - 1 < u <= t.index ensures !Initialised(rest, u) {
        TailInitialised(ticks, u);
      }
      NetUnchanged(rest, t.index - 1, t.index);
    } else {
      assert t in rest;
      NetCrossed(rest, t);
      var i :| 0 <= i < |rest| && rest[i] == t;
      assert ticks[0].index < ticks[i + 1].index;
    }
  }

  // LiquidityMath.addDelta
  function AddDelta(x: int, y: int): int {
    if y < 0 then x - y * -1 else x + y
  }

  // ----- one iteration -----

  datatype Env = Env(fee: nat, tickSpacing: int, ticks: seq<Tick>, zeroForOne: bool, exactInput: bool, limit: nat)

  // atLimit: the price is the limit object itself. The loop guard compares references, so a price
  // that merely has the value of the limit does not stop the loop.
  datatype State = State(remaining: int, calculated: int, sqrtPrice: nat, tick: int, liquidity: int, atLimit: bool)

  ghost predicate GoodEnv(env: Env) {
    && env.fee < MAX_FEE && GoodTicks(env.ticks, env.tickSpacing) && env.ticks != []
    && MIN_SQRT_RATIO < env.limit < MAX_SQRT_RATIO
  }

  // The price lies in the range of its tick, the upper end included: what the pool constructor
  // checks as PRICE_BOUNDS.
  predicate PriceInTick(sqrtPrice: nat, tick: int) {
    MIN_TICK <= tick < MAX_TICK && SqrtAt(tick) <= sqrtPrice <= SqrtAt(tick + 1)
  }

  ghost predicate Inv(env: Env, s: State) {
    && GoodEnv(env)
    && PriceInTick(s.sqrtPrice, s.tick)
    && s.liquidity == NetBelow(env.ticks, s.tick)
    && (if env.zeroForOne then env.limit <= s.sqrtPrice else s.sqrtPrice <= env.limit)
    && (if env.exactInput then 0 <= s.remaining else s.remaining <= 0)
    && (s.atLimit ==> s.sqrtPrice == env.limit)
  }

  predicate Guard(s: State) {
    s.remaining != 0 && !s.atLimit
  }

  function ClampTick(tick: int): int {
    if tick < MIN_TICK then MIN_TICK else if tick > MAX_TICK then MAX_TICK else tick
  }

  function TickNext(env: Env, s: State): (int, bool)
    requires env.tickSpacing > 0
  {
    var (next, initialised) := NextInWord(env.ticks, s.tick, env.zeroForOne, env.tickSpacing);
    (ClampTick(next), initialised)
  }

  function PastLimit(env: Env, sqrtNext: nat): bool {
    if env.zeroForOne then sqrtNext < env.limit else sqrtNext > env.limit
  }

  function Target(env: Env, sqrtNext: nat): nat {
    if PastLimit(env, sqrtNext) then env.limit else sqrtNext
  }

  function NetOf(ticks: seq<Tick>, tick: int): int {
    if ticks == [] then 0
    else if ticks[0].index == tick then ticks[0].liquidityNet
    else NetOf(ticks[1..], tick)
  }

  lemma {:induction false} NetOfIs(ticks: seq<Tick>, t: Tick)
    requires StrictlySorted(ticks) && t in ticks
    ensures NetOf(ticks, t.index) == t.liquidityNet
  {
    if t != ticks[0] {
      assert t in ticks[1..];
      var i :| 0 <= i < |ticks[1..]| && ticks[1..][i] == t;
      assert ticks[0].index < ticks[i + 1].index;
      NetOfIs(ticks[1..], t);
    }
  }

  lemma SqrtAtPositive(tick: int)
    requires MIN_TICK <= tick <= MAX_TICK
    ensures MIN_SQRT_RATIO <= SqrtAt(tick) <= MAX_SQRT_RATIO
  {
    SqrtAtBounds();
    hide SqrtAt;
    SqrtOrder(MIN_TICK, tick);
    SqrtOrder(tick, MAX_TICK);
  }

  lemma PositivePrices(env: Env, s: State)
    requires Inv(env, s)
    ensures 0 < s.sqrtPrice && 0 < Target(env, SqrtAt(TickNext(env, s).0)) && 0 <= s.liquidity
  {
    hide SqrtAt;
    SqrtAtPositive(s.tick);
    SqrtAtPositive(TickNext(env, s).0);
  }

  function StepOf(env: Env, s: State): Result<Step>
    requires Inv(env, s)
  {
    PositivePrices(env, s);
    ComputeStep(s.sqrtPrice, Target(env, SqrtAt(TickNext(env, s).0)), s.liquidity, s.remaining, env.fee)
  }

  // getTickAtSqrtRatio as a value.
  ghost function TickOf(sqrtPrice: nat): Result<int> {
    if MIN_SQRT_RATIO <= sqrtPrice < MAX_SQRT_RATIO then Success(TickAt(sqrtPrice)) else Failure("SQRT_RATIO")
  }

  // The tick after a step: past the next tick when it was reached, recomputed from the price when
  // the price moved without reaching it, and otherwise unchanged.
  ghost function TickAfter(env: Env, s: State, price: nat): Result<int>
    requires env.tickSpacing > 0
  {
    var next := TickNext(env, s).0;
    if price == SqrtAt(next) then Success(if env.zeroForOne then next - 1 else next)
    else if price != s.sqrtPrice then TickOf(price)
    else Success(s.tick)
  }

  function LiquidityAfter(env: Env, s: State, price: nat): int
    requires env.tickSpacing > 0
  {
    var (next, initialised) := TickNext(env, s);
    if price == SqrtAt(next) && initialised then
      AddDelta(s.liquidity, if env.zeroForOne then NetOf(env.ticks, next) * -1 else NetOf(env.ticks, next))
    else s.liquidity
  }

  ghost function Iterate(env: Env, s: State): Result<State>
    requires Inv(env, s)
  {
    match StepOf(env, s)
    case Failure(error) => Failure(error)
    case Success(step) =>
      match TickAfter(env, s, step.sqrtRatioNext)
      case Failure(error) => Failure(error)
      case Success(tick) =>
        Success(State(
          if env.exactInput then s.remaining - (step.amountIn + step.feeAmount) else s.remaining + step.amountOut,
          if env.exactInput then s.calculated - step.amountOut else s.calculated + (step.amountIn + step.feeAmount),
          step.sqrtRatioNext, tick, LiquidityAfter(env, s, step.sqrtRatioNext),
          step.atTarget && PastLimit(env, SqrtAt(TickNext(env, s).0))))
  }

  // ----- the invariant -----

  // Where the next tick lies, clamped to the tick range.
  lemma NextTickBounds(env: Env, s: State)
    requires Inv(env, s)
    ensures var (next, initialised) := TickNext(env, s);
            && MIN_TICK <= next <= MAX_TICK
            && initialised == Initialised(env.ticks, next)
            && (env.zeroForOne ==> next <= s.tick && forall t :: next < t <= s.tick ==> !Initialised(env.ticks, t))
            && (!env.zeroForOne ==> s.tick < next && forall t :: s.tick < t < next ==> !Initialised(env.ticks, t))
  {
    hide SqrtAt;
    NextInWordSound(env.ticks, s.tick, env.zeroForOne, env.tickSpacing);
  }

  // The target of an iteration lies on the side of the swap, and is never beyond the limit.
  lemma TargetSide(env: Env, s: State)
    requires Inv(env, s)
    ensures var sqrtNext := SqrtAt(TickNext(env, s).0); var target := Target(env, sqrtNext);
            && (env.zeroForOne ==> sqrtNext <= s.sqrtPrice && env.limit <= target <= s.sqrtPrice)
            && (!env.zeroForOne ==> s.sqrtPrice <= sqrtNext && s.sqrtPrice <= target <= env.limit)
  {
    NextTickBounds(env, s);
    hide SqrtAt, TickNext, NextInWord;
    if env.zeroForOne {
      SqrtOrder(TickNext(env, s).0, s.tick);
    } else {
      SqrtOrder(s.tick + 1, TickNext(env, s).0);
    }
  }

  // The price after an iteration stays on the swap's side of the start, within the limit.
  lemma PriceMoves(env: Env, s: State)
    requires Inv(env, s) && StepOf(env, s).Success?
    ensures var step := StepOf(env, s).value; var target := Target(env, SqrtAt(TickNext(env, s).0));
            && StepHolds(s.sqrtPrice, target, s.remaining, env.fee, step)
            && (env.zeroForOne ==> target <= step.sqrtRatioNext <= s.sqrtPrice)
            && (!env.zeroForOne ==> s.sqrtPrice <= step.sqrtRatioNext <= target)
  {
    TargetSide(env, s);
    PositivePrices(env, s);
    hide SqrtAt, TickNext, ComputeStep, Target;
    StepContract(s.sqrtPrice, Target(env, SqrtAt(TickNext(env, s).0)), s.liquidity, s.remaining, env.fee);
  }

  // The liquidity and the tick still belong together after an iteration, in each of its cases.
  lemma CrossingKeeps(env: Env, s: State)
    requires Inv(env, s)
    ensures var next := TickNext(env, s).0;
            LiquidityAfter(env, s, SqrtAt(next)) == NetBelow(env.ticks, if env.zeroForOne then next - 1 else next)
  {
    BelowNext(env, s);
    NextIsInitialised(env, s);
    NetAt(env.ticks, TickNext(env, s).0);
    hide SqrtAt, TickNext, NetBelow, Initialised, GoodTicks, PriceInTick;
  }

  lemma NextIsInitialised(env: Env, s: State)
    requires Inv(env, s)
    ensures var (next, initialised) := TickNext(env, s); initialised == Initialised(env.ticks, next)
  {
    hide Inv;
    NextTickBounds(env, s);
  }

  lemma CrossingPrice(tick: int)
    requires MIN_TICK <= tick <= MAX_TICK
    ensures MIN_TICK < tick ==> PriceInTick(SqrtAt(tick), tick - 1)
    ensures tick < MAX_TICK ==> PriceInTick(SqrtAt(tick), tick)
  {
    hide SqrtAt;
    if MIN_TICK < tick {
      SqrtOrder(tick - 1, tick);
    }
    if tick < MAX_TICK {
      SqrtOrder(tick, tick + 1);
    }
  }

  // The liquidity reaches unchanged up to the next tick.
  lemma BelowNext(env: Env, s: State)
    requires Inv(env, s)
    ensures s.liquidity == NetBelow(env.ticks, if env.zeroForOne then TickNext(env, s).0 else TickNext(env, s).0 - 1)
  {
    var next := TickNext(env, s).0;
    NextTickBounds(env, s);
    hide SqrtAt, TickNext, NetBelow, Initialised, GoodTicks;
    if env.zeroForOne {
      NetUnchanged(env.ticks, next, s.tick);
    } else {
      NetUnchanged(env.ticks, s.tick, next - 1);
    }
  }

  lemma NetAt(ticks: seq<Tick>, next: int)
    requires StrictlySorted(ticks)
    ensures NetBelow(ticks, next) == NetBelow(ticks, next - 1) + if Initialised(ticks, next) then NetOf(ticks, next) else 0
  {
    if Initialised(ticks, next) {
      var i :| 0 <= i < |ticks| && ticks[i].index == next;
      NetOfIs(ticks, ticks[i]);
      NetCrossed(ticks, ticks[i]);
    } else {
      NetUnchanged(ticks, next - 1, next);
    }
  }

  lemma MovedKeeps(env: Env, s: State, price: nat)
    requires Inv(env, s) && MIN_SQRT_RATIO <= price < MAX_SQRT_RATIO
    requires var sqrtNext := SqrtAt(TickNext(env, s).0);
             if env.zeroForOne then sqrtNext < price < s.sqrtPrice else s.sqrtPrice < price < sqrtNext
    ensures NetBelow(env.ticks, TickAt(price)) == s.liquidity && PriceInTick(price, TickAt(price))
  {
    var next, tick := TickNext(env, s).0, TickAt(price);
    NextTickBounds(env, s);
    hide SqrtAt, TickNext;
    if env.zeroForOne {
      if tick < next {
        SqrtOrder(tick + 1, next);
      }
      if s.tick < tick {
        SqrtOrder(s.tick + 1, tick);
      }
      NetUnchanged(env.ticks, tick, s.tick);
    } else {
      if next <= tick {
        SqrtOrder(next, tick);
      }
      if tick < s.tick {
        SqrtOrder(tick + 1, s.tick);
      }
      NetUnchanged(env.ticks, s.tick, tick);
    }
  }

  // Ticks left before the end of the tick range.
  function Distance(env: Env, s: State): int {
    if env.zeroForOne then s.tick - MIN_TICK else MAX_TICK - s.tick
  }

  // An iteration that does not end on the next tick ends the loop.
  lemma MissEndsLoop(env: Env, s: State)
    requires Inv(env, s) && Guard(s) && Iterate(env, s).Success?
    requires Guard(Iterate(env, s).value)
    ensures Iterate(env, s).value.sqrtPrice == SqrtAt(TickNext(env, s).0)
  {
    PriceMoves(env, s);
    hide SqrtAt, TickNext, StepOf, TickAfter, LiquidityAfter, GoodTicks;
  }

  lemma AfterStep(env: Env, s: State)
    requires Inv(env, s) && StepOf(env, s).Success?
    ensures var price := StepOf(env, s).value.sqrtRatioNext; var after := TickAfter(env, s, price);
            && after.Success? && PriceInTick(price, after.value)
            && LiquidityAfter(env, s, price) == NetBelow(env.ticks, after.value)
            && (price == SqrtAt(TickNext(env, s).0) ==>
                  if env.zeroForOne then after.value < s.tick else s.tick < after.value)
  {
    var price, next := StepOf(env, s).value.sqrtRatioNext, TickNext(env, s).0;
    PriceMoves(env, s);
    TargetSide(env, s);
    hide SqrtAt, TickNext, StepOf, NetBelow, Initialised, GoodTicks, StepHolds, PriceInTick;
    if price == SqrtAt(next) {
      InnerTick(env, s, price);
      CrossingKeeps(env, s);
      NextTickBounds(env, s);
      CrossingPrice(next);
    } else if price != s.sqrtPrice {
      StartInRange(env, s);
      MovedKeeps(env, s, price);
    }
  }

  lemma StartInRange(env: Env, s: State)
    requires Inv(env, s)
    ensures MIN_SQRT_RATIO <= s.sqrtPrice <= MAX_SQRT_RATIO
  {
    hide SqrtAt, GoodTicks;
    SqrtAtPositive(s.tick);
    SqrtAtPositive(s.tick + 1);
  }

  // The price never reaches the extreme ticks, because the limit is strictly inside.
  lemma InnerTick(env: Env, s: State, price: nat)
    requires Inv(env, s) && price == SqrtAt(TickNext(env, s).0)
    requires if env.zeroForOne then env.limit <= price else price <= env.limit
    ensures if env.zeroForOne then MIN_TICK < TickNext(env, s).0 else TickNext(env, s).0 < MAX_TICK
  {
    NextTickBounds(env, s);
    hide SqrtAt, TickNext, NetBelow, Initialised, GoodTicks;
    SqrtAtBounds();
  }

  // Every iteration keeps the invariant, moves the price one way only and never fails on a price
  // or a tick; it fails at most because of a 256 bit product in the step. It either ends the loop
  // or moves the tick strictly towards the end of the range.
  lemma IterationContract(env: Env, s: State)
    requires Inv(env, s) && Guard(s)
    ensures Iterate(env, s).Failure? <==> StepOf(env, s).Failure?
    ensures Iterate(env, s).Success? ==>
              var s' := Iterate(env, s).value;
              && Inv(env, s')
              && (if env.zeroForOne then s'.sqrtPrice <= s.sqrtPrice else s.sqrtPrice <= s'.sqrtPrice)
              && (Guard(s') ==> 0 <= Distance(env, s') < Distance(env, s))
  {
    if StepOf(env, s).Success? {
      AfterStep(env, s);
      PriceMoves(env, s);
      TargetSide(env, s);
      if Guard(Iterate(env, s).value) {
        MissEndsLoop(env, s);
      }
      hide SqrtAt, TickNext, StepOf, NetBelow, GoodTicks, TickAfter, LiquidityAfter, PriceInTick;
    }
  }

  // ----- whole runs -----

  // The state after at most n iterations: every reachable state of the loop is one of these.
  ghost function RunFrom(env: Env, s: State, n: nat): Result<State>
    requires Inv(env, s)
    decreases n
  {
    if n == 0 || !Guard(s) then Success(s)
    else
      IterationContract(env, s);
      match Iterate(env, s)
      case Failure(error) => Failure(error)
      case Success(next) => RunFrom(env, next, n - 1)
  }

  // Everything paid in, fees included, and everything paid out during those iterations.
  ghost function Paid(env: Env, s: State, n: nat): int
    requires Inv(env, s)
    decreases n
  {
    if n == 0 || !Guard(s) then 0
    else
      IterationContract(env, s);
      match Iterate(env, s)
      case Failure(_) => 0
      case Success(next) => StepOf(env, s).value.amountIn + StepOf(env, s).value.feeAmount + Paid(env, next, n - 1)
  }

  // The part of what was paid in that is fees.
  ghost function Fees(env: Env, s: State, n: nat): int
    requires Inv(env, s)
    decreases n
  {
    if n == 0 || !Guard(s) then 0
    else
      IterationContract(env, s);
      match Iterate(env, s)
      case Failure(_) => 0
      case Success(next) => StepOf(env, s).value.feeAmount + Fees(env, next, n - 1)
  }

  ghost function Received(env: Env, s: State, n: nat): int
    requires Inv(env, s)
    decreases n
  {
    if n == 0 || !Guard(s) then 0
    else
      IterationContract(env, s);
      match Iterate(env, s)
      case Failure(_) => 0
      case Success(next) => StepOf(env, s).value.amountOut + Received(env, next, n - 1)
  }

  // One iteration moves the remaining and the calculated amount by exactly what its step settles.
  lemma StepAccounts(env: Env, s: State)
    requires Inv(env, s) && Iterate(env, s).Success?
    ensures var s', step := Iterate(env, s).value, StepOf(env, s).value;
            && 0 <= step.feeAmount
            && (env.exactInput ==> s.remaining == s'.remaining + (step.amountIn + step.feeAmount)
                                   && s'.calculated == s.calculated - step.amountOut)
            && (!env.exactInput ==> s.remaining == s'.remaining - step.amountOut
                                    && s'.calculated == s.calculated + (step.amountIn + step.feeAmount))
  {
    PriceMoves(env, s);
    hide Inv, StepOf, TickAfter, LiquidityAfter, Target, SqrtAt, TickNext;
  }

  lemma TotalsUnfold(env: Env, s: State, n: nat)
    requires Inv(env, s)
    ensures !Guard(s) || n == 0 ==> RunFrom(env, s, n) == Success(s) && Paid(env, s, n) == 0 == Received(env, s, n) == Fees(env, s, n)
    ensures Guard(s) && 0 < n && Iterate(env, s).Success? ==>
              var s', step := Iterate(env, s).value, StepOf(env, s).value;
              && Inv(env, s') && RunFrom(env, s, n) == RunFrom(env, s', n - 1)
              && Paid(env, s, n) == step.amountIn + step.feeAmount + Paid(env, s', n - 1)
              && Received(env, s, n) == step.amountOut + Received(env, s', n - 1)
              && Fees(env, s, n) == step.feeAmount + Fees(env, s', n - 1)
    ensures Guard(s) && 0 < n && Iterate(env, s).Failure? ==> RunFrom(env, s, n).Failure?
  {
    if Guard(s) {
      IterationContract(env, s);
    }
    hide Iterate, Inv, StepOf;
  }

  // In every reachable state: liquidity matches the tick, the price is inside its tick and within
  // the limit, the remaining amount has not changed sign, and nothing is lost between what was
  // specified, what remains and what the steps settled.
  lemma {:induction false} RunContract(env: Env, s: State, n: nat)
    requires Inv(env, s) && RunFrom(env, s, n).Success?
    ensures var e := RunFrom(env, s, n).value;
            && Inv(env, e)
            && (if env.zeroForOne then e.sqrtPrice <= s.sqrtPrice else s.sqrtPrice <= e.sqrtPrice)
            && 0 <= Paid(env, s, n) && 0 <= Received(env, s, n)
            && (env.exactInput ==> s.remaining == e.remaining + Paid(env, s, n)
                                   && e.calculated == s.calculated - Received(env, s, n))
            && (!env.exactInput ==> s.remaining == e.remaining - Received(env, s, n)
                                    && e.calculated == s.calculated + Paid(env, s, n))
    decreases n
  {
    hide Inv, StepOf, Iterate, RunFrom, Paid, Received;
    TotalsUnfold(env, s, n);
    if n > 0 && Guard(s) {
      IterationContract(env, s);
      StepAccounts(env, s);
      RunContract(env, Iterate(env, s).value, n - 1);
    }
  }

  // Of everything paid in, at least the fee's millionths are fees.
  lemma {:induction false} RunFees(env: Env, s: State, n: nat)
    requires Inv(env, s) && RunFrom(env, s, n).Success?
    ensures Paid(env, s, n) * env.fee <= Fees(env, s, n) * 1_000_000
    decreases n
  {
    hide Inv, StepOf, Iterate, RunFrom, Paid, Fees, Received;
    TotalsUnfold(env, s, n);
    if n > 0 && Guard(s) {
      IterationContract(env, s);
      StepFeeShare(env, s);
      var s', step := Iterate(env, s).value, StepOf(env, s).value;
      RunFees(env, s', n - 1);
      ShareAdds(step.amountIn + step.feeAmount, Paid(env, s', n - 1), env.fee, step.feeAmount, Fees(env, s', n - 1));
    }
  }

  lemma ShareAdds(paid: int, paid': int, fee: int, fees: int, fees': int)
    requires paid * fee <= fees * 1_000_000 && paid' * fee <= fees' * 1_000_000
    ensures (paid + paid') * fee <= (fees + fees') * 1_000_000
  {
    assert (paid + paid') * fee == paid * fee + paid' * fee;
  }

  lemma StepFeeShare(env: Env, s: State)
    requires Inv(env, s) && Iterate(env, s).Success?
    ensures var step := StepOf(env, s).value; (step.amountIn + step.feeAmount) * env.fee <= step.feeAmount * 1_000_000
  {
    hide *;
    StepIs(env, s);
    StepWasTaken(env, s);
    ShareOfStep(s.sqrtPrice, Target(env, SqrtAt(TickNext(env, s).0)), s.liquidity, s.remaining, env.fee);
  }

  lemma StepIs(env: Env, s: State)
    requires Inv(env, s)
    ensures env.tickSpacing > 0
    ensures var target := Target(env, SqrtAt(TickNext(env, s).0));
            && 0 < s.sqrtPrice && 0 < target && env.fee < MAX_FEE && 0 <= s.liquidity
            && StepOf(env, s) == ComputeStep(s.sqrtPrice, target, s.liquidity, s.remaining, env.fee)
  {
    PositivePrices(env, s);
    hide SqrtAt, TickNext, Target, NetBelow, ComputeStep, PriceInTick;
  }

  lemma StepWasTaken(env: Env, s: State)
    requires Inv(env, s) && Iterate(env, s).Success?
    ensures StepOf(env, s).Success?
  {
    hide Inv, StepOf, TickAfter, LiquidityAfter;
  }

  lemma ShareOfStep(current: nat, target: nat, liquidity: nat, remaining: int, fee: nat)
    requires 0 < current && 0 < target && fee < MAX_FEE && ComputeStep(current, target, liquidity, remaining, fee).Success?
    ensures var step := ComputeStep(current, target, liquidity, remaining, fee).value;
            (step.amountIn + step.feeAmount) * fee <= step.feeAmount * 1_000_000
  {
    StepContract(current, target, liquidity, remaining, fee);
    hide ComputeStep;
    var step := ComputeStep(current, target, liquidity, remaining, fee).value;
    FeeShare(step.amountIn, step.feeAmount, fee);
  }

  lemma FeeShare(amountIn: int, feeAmount: int, fee: nat)
    requires amountIn * fee <= feeAmount * (1_000_000 - fee)
    ensures (amountIn + feeAmount) * fee <= feeAmount * 1_000_000
  {
    assert feeAmount * (1_000_000 - fee) == feeAmount * 1_000_000 - feeAmount * fee;
  }

  // The loop ends: after one iteration more than there are ticks left, its guard is false.
  lemma {:induction false} RunEnds(env: Env, s: State, n: nat)
    requires Inv(env, s) && RunFrom(env, s, n).Success?
    requires Guard(s) ==> Distance(env, s) < n
    ensures !Guard(RunFrom(env, s, n).value)
    decreases n
  {
    hide Inv, Iterate, Distance, Guard, RunFrom, StepOf;
    RunUnfold(env, s, n);
    if Guard(s) {
      IterationContract(env, s);
      DistanceBound(env, s);
      RunEnds(env, Iterate(env, s).value, n - 1);
    }
  }

  // The reference comparison in the guard is harmless: at a price that equals the limit without
  // being the limit object, one more iteration changes nothing but the object.
  lemma IdleIteration(env: Env, s: State)
    requires Inv(env, s) && Guard(s) && s.sqrtPrice == env.limit
    requires s.sqrtPrice != SqrtAt(TickNext(env, s).0)
    ensures Iterate(env, s) == Success(s.(atLimit := true))
  {
    TargetSide(env, s);
    PositivePrices(env, s);
    IdleStep(s.sqrtPrice, s.liquidity, s.remaining, env.fee);
    hide SqrtAt, TickNext, ComputeStep, NetBelow;
    assert Target(env, SqrtAt(TickNext(env, s).0)) == s.sqrtPrice;
  }

  // A price that an iteration leaves on an initialised or word boundary tick has its next tick
  // strictly further on.
  lemma NextIsFurther(env: Env, s: State)
    requires Inv(env, s) && (env.zeroForOne ==> s.sqrtPrice == SqrtAt(s.tick + 1))
    requires !env.zeroForOne ==> s.sqrtPrice == SqrtAt(s.tick)
    ensures s.sqrtPrice != SqrtAt(TickNext(env, s).0)
  {
    NextTickBounds(env, s);
    hide SqrtAt, TickNext, NetBelow, Initialised, GoodTicks;
    if env.zeroForOne {
      SqrtAtIncreasing(TickNext(env, s).0, s.tick + 1);
    } else {
      SqrtAtIncreasing(s.tick, TickNext(env, s).0);
    }
  }

  // Where an iteration arrives at the limit price without being at the limit object, the next is idle.
  lemma ArrivalIsIdle(env: Env, s: State)
    requires Inv(env, s) && Guard(s) && Iterate(env, s).Success?
    requires var s' := Iterate(env, s).value; Guard(s') && s'.sqrtPrice == env.limit
    ensures var s' := Iterate(env, s).value; Inv(env, s') && Iterate(env, s') == Success(s'.(atLimit := true))
  {
    var s' := Iterate(env, s).value;
    IterationContract(env, s);
    MissEndsLoop(env, s);
    hide SqrtAt, TickNext, StepOf, LiquidityAfter, Inv, Distance;
    assert s'.tick == if env.zeroForOne then TickNext(env, s).0 - 1 else TickNext(env, s).0;
    NextIsFurther(env, s');
    IdleIteration(env, s');
  }

  // The loop with a guard that compares prices instead of objects.
  ghost function RunByValue(env: Env, s: State, n: nat): Result<State>
    requires Inv(env, s)
    decreases n
  {
    if n == 0 || s.remaining == 0 || s.sqrtPrice == env.limit then Success(s)
    else
      IterationContract(env, s);
      match Iterate(env, s)
      case Failure(error) => Failure(error)
      case Success(next) => RunByValue(env, next, n - 1)
  }

  ghost predicate SameButForObject(r: Result<State>, q: Result<State>) {
    (r.Failure? && r == q) || (r.Success? && q.Success? && r.value == q.value.(atLimit := r.value.atLimit))
  }

  lemma ByValueUnfold(env: Env, s: State, n: nat)
    requires Inv(env, s)
    ensures s.remaining == 0 || s.sqrtPrice == env.limit ==> RunByValue(env, s, n) == Success(s)
    ensures Guard(s) && s.sqrtPrice != env.limit && 0 < n && Iterate(env, s).Failure? ==>
              RunByValue(env, s, n) == Failure(Iterate(env, s).error)
    ensures Guard(s) && s.sqrtPrice != env.limit && 0 < n && Iterate(env, s).Success? ==>
              Inv(env, Iterate(env, s).value) && RunByValue(env, s, n) == RunByValue(env, Iterate(env, s).value, n - 1)
  {
    if Guard(s) {
      IterationContract(env, s);
    }
    hide Iterate, Inv;
  }

  // The guard compares objects, which costs at most an idle iteration: a loop that compared prices
  // would end with the same error, or with the same price, tick, liquidity and amounts.
  lemma {:induction false} ReferenceGuardIsHarmless(env: Env, s: State, n: nat)
    requires Inv(env, s) && s.sqrtPrice != env.limit && (Guard(s) ==> Distance(env, s) < n)
    ensures SameButForObject(RunFrom(env, s, n), RunByValue(env, s, n))
    decreases n
  {
    hide Iterate, Distance, RunFrom, RunByValue, SqrtAt, NetBelow, GoodEnv, PriceInTick;
    ByValueUnfold(env, s, n);
    RunUnfold(env, s, n);
    if Guard(s) {
      DistanceBound(env, s);
      IterationContract(env, s);
      if Iterate(env, s).Success? {
        var s' := Iterate(env, s).value;
        if s'.sqrtPrice != env.limit {
          ReferenceGuardIsHarmless(env, s', n - 1);
        } else {
          ByValueUnfold(env, s', n - 1);
          RunUnfold(env, s', n - 1);
          if Guard(s') {
            DistanceBound(env, s');
            ArrivalIsIdle(env, s);
            RunUnfold(env, s'.(atLimit := true), n - 2);
          }
        }
      }
    }
  }

  // ----- the swap -----

  datatype SwapResult = SwapResult(amountCalculated: int, sqrtRatio: nat, liquidity: int, tickCurrent: int)

  function DefaultLimit(zeroForOne: bool): nat {
    if zeroForOne then MIN_SQRT_RATIO + 1 else MAX_SQRT_RATIO - 1
  }

  function LimitError(zeroForOne: bool, limit: nat, sqrtRatio: nat): Option<string> {
    if zeroForOne then
      if limit <= MIN_SQRT_RATIO then Some("RATIO_MIN")
      else if sqrtRatio <= limit then Some("RATIO_CURRENT") else None
    else
      if MAX_SQRT_RATIO <= limit then Some("RATIO_MAX")
      else if limit <= sqrtRatio then Some("RATIO_CURRENT") else None
  }

  // A pool whose state is consistent, as far as a swap reads it.
  datatype PoolState = PoolState(fee: nat, tickSpacing: int, sqrtRatio: nat, tickCurrent: int, liquidity: int, ticks: seq<Tick>)

  ghost predicate GoodPool(p: PoolState) {
    && p.fee < MAX_FEE && GoodTicks(p.ticks, p.tickSpacing)
    && PriceInTick(p.sqrtRatio, p.tickCurrent)
    && p.liquidity == NetBelow(p.ticks, p.tickCurrent)
  }

  function EnvOf(p: PoolState, zeroForOne: bool, amountSpecified: int, limit: nat): Env {
    Env(p.fee, p.tickSpacing, p.ticks, zeroForOne, amountSpecified >= 0, limit)
  }

  function StartOf(p: PoolState, amountSpecified: int): State {
    State(amountSpecified, 0, p.sqrtRatio, p.tickCurrent, p.liquidity, false)
  }

  lemma StartIsGood(p: PoolState, zeroForOne: bool, amountSpecified: int, limit: nat)
    requires GoodPool(p) && p.ticks != [] && LimitError(zeroForOne, limit, p.sqrtRatio) == None
    ensures Inv(EnvOf(p, zeroForOne, amountSpecified, limit), StartOf(p, amountSpecified))
  {
    hide SqrtAt, NetBelow, GoodTicks;
    SqrtAtPositive(p.tickCurrent);
    SqrtAtPositive(p.tickCurrent + 1);
  }

  // The state in which the loop stops.
  ghost function FinalState(p: PoolState, zeroForOne: bool, amountSpecified: int, limit: nat): Result<State>
    requires GoodPool(p) && p.ticks != [] && LimitError(zeroForOne, limit, p.sqrtRatio) == None
  {
    StartIsGood(p, zeroForOne, amountSpecified, limit);
    var env := EnvOf(p, zeroForOne, amountSpecified, limit);
    var start := StartOf(p, amountSpecified);
    RunFrom(env, start, Distance(env, start) + 1)
  }

  // What v3Swap returns.
  ghost function Swap(p: PoolState, zeroForOne: bool, amountSpecified: int, sqrtPriceLimit: Option<nat>): Result<SwapResult>
    requires GoodPool(p)
  {
    var limit := if sqrtPriceLimit.None? then DefaultLimit(zeroForOne) else sqrtPriceLimit.value;
    match LimitError(zeroForOne, limit, p.sqrtRatio)
    case Some(error) => Failure(error)
    case None =>
      if amountSpecified == 0 then Success(SwapResult(0, p.sqrtRatio, p.liquidity, p.tickCurrent))
      else if p.ticks == [] then Failure("LENGTH")
      else match FinalState(p, zeroForOne, amountSpecified, limit)
        case Failure(error) => Failure(error)
        case Success(s) => Success(SwapResult(s.calculated, s.sqrtPrice, s.liquidity, s.tick))
  }

  lemma RunUnfold(env: Env, s: State, n: nat)
    requires Inv(env, s)
    ensures !Guard(s) ==> RunFrom(env, s, n) == Success(s)
    ensures Guard(s) && 0 < n && Iterate(env, s).Failure? ==> RunFrom(env, s, n) == Failure(Iterate(env, s).error)
    ensures Guard(s) && 0 < n && Iterate(env, s).Success? ==>
              Inv(env, Iterate(env, s).value) && RunFrom(env, s, n) == RunFrom(env, Iterate(env, s).value, n - 1)
  {
    if Guard(s) {
      IterationContract(env, s);
    }
    hide Iterate, Inv;
  }

  // The while loop.
  method SwapLoop(env: Env, start: State) returns (r: Result<State>)
    requires Inv(env, start)
    ensures r == RunFrom(env, start, Distance(env, start) + 1)
  {
    var state := start;
    ghost var fuel := Distance(env, start) + 1;
    hide Iterate, Inv, RunFrom, Distance, Guard, StepOf;
    DistanceBound(env, start);
    while Guard(state)
      invariant Inv(env, state) && 0 <= fuel
      invariant RunFrom(env, state, fuel) == RunFrom(env, start, Distance(env, start) + 1)
      invariant Guard(state) ==> Distance(env, state) < fuel
      decreases fuel
    {
      IterationContract(env, state);
      RunUnfold(env, state, fuel);
      DistanceBound(env, state);
      var next := IterateOnce(env, state);
      if next.Failure? {
        return Failure(next.error);
      }
      state := next.value;
      fuel := fuel - 1;
    }
    RunUnfold(env, state, fuel);
    r := Success(state);
  }

  lemma DistanceBound(env: Env, s: State)
    requires Inv(env, s)
    ensures 0 <= Distance(env, s)
  {
    hide SqrtAt, GoodEnv;
  }

  // The whole function.
  method V3Swap(p: PoolState, zeroForOne: bool, amountSpecified: int, sqrtPriceLimit: Option<nat>)
    returns (r: Result<SwapResult>)
    requires GoodPool(p)
    ensures r == Swap(p, zeroForOne, amountSpecified, sqrtPriceLimit)
  {
    var limit := if sqrtPriceLimit.None? then DefaultLimit(zeroForOne) else sqrtPriceLimit.value;
    hide SqrtAt, NetBelow, GoodPool, RunFrom, Inv;
    if zeroForOne {
      if limit <= MIN_SQRT_RATIO { return Failure("RATIO_MIN"); }
      if limit >= p.sqrtRatio { return Failure("RATIO_CURRENT"); }
    } else {
      if limit >= MAX_SQRT_RATIO { return Failure("RATIO_MAX"); }
      if limit <= p.sqrtRatio { return Failure("RATIO_CURRENT"); }
    }
    if amountSpecified == 0 {
      return Success(SwapResult(0, p.sqrtRatio, p.liquidity, p.tickCurrent));
    }
    if p.ticks == [] {
      return Failure("LENGTH");
    }
    StartIsGood(p, zeroForOne, amountSpecified, limit);
    var final := SwapLoop(EnvOf(p, zeroForOne, amountSpecified, limit), StartOf(p, amountSpecified));
    if final.Failure? {
      return Failure(final.error);
    }
    var s := final.value;
    r := Success(SwapResult(s.calculated, s.sqrtPrice, s.liquidity, s.tick));
  }

  // The next tick of an iteration, clamped to the tick range.
  method FindNextTick(env: Env, s: State) returns (tickNext: int, initialized: bool)
    requires Inv(env, s)
    ensures (tickNext, initialized) == TickNext(env, s)
  {
    hide SqrtAt, NextInWord, NetBelow;
    var found := NextInitializedTickWithinOneWord(env.ticks, s.tick, env.zeroForOne, env.tickSpacing);
    tickNext, initialized := found.value.0, found.value.1;
    if tickNext < MIN_TICK {
      tickNext := MIN_TICK;
    } else if tickNext > MAX_TICK {
      tickNext := MAX_TICK;
    }
  }

  // The tick transition, or the recomputation of the tick.
  method Transition(env: Env, s: State, tickNext: int, initialized: bool, sqrtPriceNext: nat, price: nat)
    returns (tick: Result<int>, liquidity: int)
    requires GoodEnv(env) && (tickNext, initialized) == TickNext(env, s) && sqrtPriceNext == SqrtAt(tickNext)
    requires initialized ==> Initialised(env.ticks, tickNext)
    ensures tick == TickAfter(env, s, price)
    ensures liquidity == LiquidityAfter(env, s, price)
  {
    hide SqrtAt, TickNext, NetBelow;
    tick, liquidity := Success(s.tick), s.liquidity;
    if price == sqrtPriceNext {
      if initialized {
        var found := GetTick(env.ticks, tickNext);
        NetOfIs(env.ticks, found.value);
        var liquidityNet := found.value.liquidityNet;
        if env.zeroForOne {
          liquidityNet := liquidityNet * -1;
        }
        liquidity := AddDelta(s.liquidity, liquidityNet);
      }
      tick := Success(if env.zeroForOne then tickNext - 1 else tickNext);
    } else if price != s.sqrtPrice {
      tick := GetTickAtSqrtRatio(price);
      if tick.Success? {
        TickUnique(price, tick.value, TickAt(price));
      }
    }
  }

  method TakeStep(env: Env, s: State, sqrtPriceNext: nat) returns (computed: Result<Step>, pastLimit: bool)
    requires Inv(env, s) && sqrtPriceNext == SqrtAt(TickNext(env, s).0)
    ensures computed == StepOf(env, s) && pastLimit == PastLimit(env, sqrtPriceNext)
  {
    PositivePrices(env, s);
    hide SqrtAt, TickNext, ComputeStep, GoodTicks, NetBelow;
    pastLimit := if env.zeroForOne then sqrtPriceNext < env.limit else sqrtPriceNext > env.limit;
    var target := if pastLimit then env.limit else sqrtPriceNext;
    computed := ComputeSwapStep(s.sqrtPrice, target, s.liquidity, s.remaining, env.fee);
  }

  lemma EnvIsGood(env: Env, s: State)
    requires Inv(env, s)
    ensures GoodEnv(env) && MIN_TICK <= TickNext(env, s).0 <= MAX_TICK
    ensures TickNext(env, s).1 == Initialised(env.ticks, TickNext(env, s).0)
  {
    hide SqrtAt;
    NextTickBounds(env, s);
  }

  // The loop body.
  method IterateOnce(env: Env, s: State) returns (r: Result<State>)
    requires Inv(env, s) && Guard(s)
    ensures r == Iterate(env, s)
  {
    hide SqrtAt, TickNext, StepOf, TickAfter, LiquidityAfter, Inv, GoodEnv, Initialised, NetBelow, Target;
    EnvIsGood(env, s);
    var tickNext, initialized := FindNextTick(env, s);
    var ratio := GetSqrtRatioAtTick(tickNext);
    var sqrtPriceNext := ratio.value;
    var computed, pastLimit := TakeStep(env, s, sqrtPriceNext);
    if computed.Failure? {
      return Failure(computed.error);
    }
    var step := computed.value;
    var remaining, calculated := s.remaining, s.calculated;
    if env.exactInput {
      remaining := remaining - (step.amountIn + step.feeAmount);
      calculated := calculated - step.amountOut;
    } else {
      remaining := remaining + step.amountOut;
      calculated := calculated + (step.amountIn + step.feeAmount);
    }
    var tick, liquidity := Transition(env, s, tickNext, initialized, sqrtPriceNext, step.sqrtRatioNext);
    if tick.Failure? {
      return Failure(tick.error);
    }
    r := Success(State(remaining, calculated, step.sqrtRatioNext, tick.value, liquidity, step.atTarget && pastLimit));
  }
}
