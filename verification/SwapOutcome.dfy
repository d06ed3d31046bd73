// When a swap fails and where it stops, with the limits, prices and units spelled out.
module SwapOutcome {
  import opened Arith
  import opened Results
  import opened TickMath
  import opened SqrtPriceMath
  import opened SwapMath
  import opened V3Swap
  import opened Reserves

  // ----- when a run fails -----

  // A step fails only for an output of token0, on the way up.
  lemma StepFailure(current: nat, target: nat, liquidity: nat, remaining: int, feePips: nat)
    requires 0 < current && 0 < target && feePips < MAX_FEE
    requires ComputeStep(current, target, liquidity, remaining, feePips).Failure?
    ensures ComputeStep(current, target, liquidity, remaining, feePips).error == "Invariant failed"
    ensures remaining < 0 && current < target && Q256 <= -remaining * current
  {
    NextBetween(current, target, liquidity, remaining, feePips);
    hide GetAmount0Delta, GetAmount1Delta, LessFee, MulDivRoundingUp, Numerator;
  }

  // Some state of the run, whose guard holds, has a failing step.
  ghost predicate SomeStepFails(env: Env, s: State, n: nat)
    requires Inv(env, s)
  {
    exists k, e :: 0 <= k < n && RunFrom(env, s, k) == Success(e) && Guard(e) && Inv(env, e) && StepOf(env, e).Failure?
  }

  lemma IterationFailure(env: Env, s: State)
    requires Inv(env, s) && Guard(s) && Iterate(env, s).Failure?
    ensures Iterate(env, s).error == "Invariant failed" && StepOf(env, s).Failure?
    ensures !env.exactInput && !env.zeroForOne
  {
    IterationContract(env, s);
    PositivePrices(env, s);
    TargetSide(env, s);
    hide SqrtAt, TickNext, GoodTicks, NetBelow, ComputeStep, PriceInTick, TickAfter, LiquidityAfter;
    StepFailure(s.sqrtPrice, Target(env, SqrtAt(TickNext(env, s).0)), s.liquidity, s.remaining, env.fee);
  }

  lemma {:induction false} RunFailure(env: Env, s: State, n: nat)
    requires Inv(env, s) && RunFrom(env, s, n).Failure?
    ensures RunFrom(env, s, n).error == "Invariant failed" && !env.exactInput && !env.zeroForOne
    ensures SomeStepFails(env, s, n)
    decreases n
  {
    hide Inv, Iterate, StepOf, Guard, RunFrom;
    RunStarts(env, s);
    RunUnfold(env, s, n);
    if Iterate(env, s).Failure? {
      IterationFailure(env, s);
      assert RunFrom(env, s, 0) == Success(s);
    } else {
      var next := Iterate(env, s).value;
      RunFailure(env, next, n - 1);
      var k, e :| 0 <= k < n - 1 && RunFrom(env, next, k) == Success(e) && Guard(e) && Inv(env, e) && StepOf(env, e).Failure?;
      RunUnfold(env, s, k + 1);
      assert RunFrom(env, s, k + 1) == Success(e);
    }
  }

  lemma RunStarts(env: Env, s: State)
    requires Inv(env, s)
    ensures RunFrom(env, s, 0) == Success(s)
    ensures forall n: nat :: RunFrom(env, s, n).Failure? ==> Guard(s) && n > 0
  {
    hide Inv, Iterate;
  }

  // ----- whole swaps -----

  // The three complaints about a price limit, each exactly when it is out of place, and that about a pool
  // without ticks, when something is to be swapped. Without a limit, the limit is the last price inside
  // the range, 4295128740 going down or 1461446703485210103287273052203988822378723970341 going up.
  lemma LimitErrors(p: PoolState, zeroForOne: bool, amountSpecified: int, sqrtPriceLimit: Option<nat>)
    requires GoodPool(p)
    ensures
      var r := Swap(p, zeroForOne, amountSpecified, sqrtPriceLimit);
      var limit := if sqrtPriceLimit.Some? then sqrtPriceLimit.value
                   else if zeroForOne then 4295128740 else 1461446703485210103287273052203988822378723970341;
      && (r == Failure("RATIO_MIN") <==> zeroForOne && limit <= 4295128739)
      && (r == Failure("RATIO_MAX") <==> !zeroForOne && 1461446703485210103287273052203988822378723970342 <= limit)
      && (r == Failure("RATIO_CURRENT") <==>
           if zeroForOne then 4295128739 < limit && p.sqrtRatio <= limit
           else limit < 1461446703485210103287273052203988822378723970342 && limit <= p.sqrtRatio)
      && (r == Failure("LENGTH") <==>
           amountSpecified != 0 && p.ticks == []
           && if zeroForOne then 4295128739 < limit < p.sqrtRatio
              else p.sqrtRatio < limit < 1461446703485210103287273052203988822378723970342)
  {
    FailureOfRun(p, zeroForOne, amountSpecified, LimitOf(zeroForOne, sqrtPriceLimit));
    hide GoodPool, FinalState;
  }

  lemma FailureOfRun(p: PoolState, zeroForOne: bool, amountSpecified: int, limit: nat)
    requires GoodPool(p)
    ensures p.ticks != [] && LimitError(zeroForOne, limit, p.sqrtRatio) == None ==>
      var env, start := EnvOf(p, zeroForOne, amountSpecified, limit), StartOf(p, amountSpecified);
      && Inv(env, start)
      && (FinalState(p, zeroForOne, amountSpecified, limit).Failure? ==>
           && FinalState(p, zeroForOne, amountSpecified, limit).error == "Invariant failed"
           && amountSpecified < 0 && !zeroForOne && SomeStepFails(env, start, Distance(env, start) + 1))
  {
    hide GoodPool, Inv, RunFrom, FinalState, Distance, SomeStepFails;
    if p.ticks != [] && LimitError(zeroForOne, limit, p.sqrtRatio) == None {
      var env, start := EnvOf(p, zeroForOne, amountSpecified, limit), StartOf(p, amountSpecified);
      StartIsGood(p, zeroForOne, amountSpecified, limit);
      FinalIsRun(p, zeroForOne, amountSpecified, limit);
      DistanceBound(env, start);
      if FinalState(p, zeroForOne, amountSpecified, limit).Failure? {
        RunFailure(env, start, Distance(env, start) + 1);
      }
    }
  }

  // With its limit in place a swap of something through a pool with ticks fails only where a step of its
  // run does, and only when asked for token1's price to rise and for an amount of token0 to come out; it
  // stops with everything settled or on the limit. Without a limit, that is anywhere between the two
  // extreme prices.
  lemma SwapEnds(p: PoolState, zeroForOne: bool, amountSpecified: int, sqrtPriceLimit: Option<nat>)
    requires GoodPool(p) && p.ticks != [] && amountSpecified != 0
    requires sqrtPriceLimit.Some? ==>
      if zeroForOne then 4295128739 < sqrtPriceLimit.value < p.sqrtRatio
      else p.sqrtRatio < sqrtPriceLimit.value < 1461446703485210103287273052203988822378723970342
    requires sqrtPriceLimit.None? ==> 4295128740 < p.sqrtRatio < 1461446703485210103287273052203988822378723970341
    ensures
      var limit := if sqrtPriceLimit.Some? then sqrtPriceLimit.value
                   else if zeroForOne then 4295128740 else 1461446703485210103287273052203988822378723970341;
      var env := Env(p.fee, p.tickSpacing, p.ticks, zeroForOne, amountSpecified > 0, limit);
      var start := State(amountSpecified, 0, p.sqrtRatio, p.tickCurrent, p.liquidity, false);
      var r := Swap(p, zeroForOne, amountSpecified, sqrtPriceLimit);
      && Inv(env, start)
      && (r.Failure? ==> amountSpecified < 0 && !zeroForOne && SomeStepFails(env, start, Distance(env, start) + 1))
      && (r.Success? ==>
           exists n: nat, e ::
             && RunFrom(env, start, n) == Success(e) && (e.remaining == 0 || e.sqrtPrice == limit)
             && r.value == SwapResult(e.calculated, e.sqrtPrice, e.liquidity, e.tick))
  {
    var limit := LimitOf(zeroForOne, sqrtPriceLimit);
    FailureOfRun(p, zeroForOne, amountSpecified, limit);
    var env, start := EnvOf(p, zeroForOne, amountSpecified, limit), StartOf(p, amountSpecified);
    if FinalState(p, zeroForOne, amountSpecified, limit).Success? {
      RunOfSwap(p, zeroForOne, amountSpecified, limit);
      FinalIsRun(p, zeroForOne, amountSpecified, limit);
      hide GoodPool, Inv, RunFrom, FinalState, Distance, Settled;
      DistanceBound(env, start);
      var e := FinalState(p, zeroForOne, amountSpecified, limit).value;
      assert RunFrom(env, start, Distance(env, start) + 1) == Success(e);
    }
    hide GoodPool, Inv, RunFrom, FinalState, Distance, Settled, SomeStepFails;
  }

  // Paying in, and taking out token1, never fails.
  lemma ExactInputNeverFails(p: PoolState, zeroForOne: bool, amount: nat)
    requires GoodPool(p) && p.ticks != [] && 4295128740 < p.sqrtRatio < 1461446703485210103287273052203988822378723970341
    ensures GetOutputAmount(p, zeroForOne, amount, None).Success?
    ensures zeroForOne ==> GetInputAmount(p, zeroForOne, amount, None).Success?
  {
    hide GoodPool, Inv, RunFrom, SwapAndRebuild, SomeStepFails;
    FailureOfRun(p, zeroForOne, amount, LimitOf(zeroForOne, None));
    FailureOfRun(p, zeroForOne, -(amount as int), LimitOf(zeroForOne, None));
    RebuildNeverFails(p, zeroForOne, amount, None);
    RebuildNeverFails(p, zeroForOne, -(amount as int), None);
    hide FinalState;
  }

  // ----- the fee, in millionths -----

  // The fee of a step, in millionths. Where an exact input misses its target, what is not paid for the
  // move is the fee: at least its share of all that was left, and one price unit further would have left
  // less than that. Everywhere else it is the least fee that is its share of the input and the fee.
  lemma FeeInMillionths(current: nat, target: nat, liquidity: nat, remaining: int, feePips: nat, k: nat)
    requires 0 < current && 0 < target && feePips < 1_000_000
    requires ComputeStep(current, target, liquidity, remaining, feePips).Success?
    ensures
      var s := ComputeStep(current, target, liquidity, remaining, feePips).value;
      && (remaining >= 0 && !s.atTarget ==>
           && s.feeAmount == remaining - s.amountIn && s.feeAmount * 1_000_000 >= remaining * feePips
           && (current < target ==>
                (remaining - InDelta(current, s.sqrtRatioNext + 1, liquidity, false)) * 1_000_000 < remaining * feePips)
           && (target <= current && FitsWithInput(current, liquidity, remaining) ==>
                && 1 < s.sqrtRatioNext
                && (remaining - InDelta(current, s.sqrtRatioNext - 1, liquidity, true)) * 1_000_000 < remaining * feePips))
      && (remaining < 0 || s.atTarget ==> (s.feeAmount <= k <==> (s.amountIn + k) * feePips <= k * 1_000_000))
  {
    StepContract(current, target, liquidity, remaining, feePips);
    var s := ComputeStep(current, target, liquidity, remaining, feePips).value;
    if remaining >= 0 && !s.atTarget {
      MissedFee(current, target, liquidity, remaining, feePips);
    } else {
      LeastFee(current, target, liquidity, remaining, feePips, k);
    }
  }

  lemma LeastFee(current: nat, target: nat, liquidity: nat, remaining: int, feePips: nat, k: nat)
    requires 0 < current && 0 < target && feePips < MAX_FEE
    requires ComputeStep(current, target, liquidity, remaining, feePips).Success?
    requires var s := ComputeStep(current, target, liquidity, remaining, feePips).value; remaining < 0 || s.atTarget
    ensures
      var s := ComputeStep(current, target, liquidity, remaining, feePips).value;
      s.feeAmount <= k <==> (s.amountIn + k) * feePips <= k * 1_000_000
  {
    var s := ComputeStep(current, target, liquidity, remaining, feePips).value;
    FeeFormula(current, target, liquidity, remaining, feePips);
    hide ComputeStep, MulDivRoundingUp;
    MulDivGalois(s.amountIn, feePips, MAX_FEE - feePips, k);
    ShareOfBoth(s.amountIn, k, feePips);
  }

  lemma ShareOfBoth(a: int, k: int, f: int)
    ensures a * f <= k * (1_000_000 - f) <==> (a + k) * f <= k * 1_000_000
  {
    assert k * (1_000_000 - f) == k * 1_000_000 - k * f;
    assert (a + k) * f == a * f + k * f;
  }

  lemma FeeFormula(current: nat, target: nat, liquidity: nat, remaining: int, feePips: nat)
    requires 0 < current && 0 < target && feePips < MAX_FEE
    requires ComputeStep(current, target, liquidity, remaining, feePips).Success?
    requires var s := ComputeStep(current, target, liquidity, remaining, feePips).value; remaining < 0 || s.atTarget
    ensures var s := ComputeStep(current, target, liquidity, remaining, feePips).value;
            s.feeAmount == MulDivRoundingUp(s.amountIn, feePips, MAX_FEE - feePips)
  {
    NextBetween(current, target, liquidity, remaining, feePips);
    hide GetAmount0Delta, GetAmount1Delta, LessFee, MulDivRoundingUp;
  }

  lemma MissedFee(current: nat, target: nat, liquidity: nat, remaining: nat, feePips: nat)
    requires 0 < current && 0 < target && feePips < MAX_FEE
    requires ComputeStep(current, target, liquidity, remaining, feePips).Success?
    requires !ComputeStep(current, target, liquidity, remaining, feePips).value.atTarget
    ensures
      var s := ComputeStep(current, target, liquidity, remaining, feePips).value;
      && s.feeAmount == remaining - s.amountIn && s.feeAmount * 1_000_000 >= remaining * feePips
      && (current < target ==>
           (remaining - InDelta(current, s.sqrtRatioNext + 1, liquidity, false)) * 1_000_000 < remaining * feePips)
      && (target <= current && FitsWithInput(current, liquidity, remaining) ==>
           && 1 < s.sqrtRatioNext
           && (remaining - InDelta(current, s.sqrtRatioNext - 1, liquidity, true)) * 1_000_000 < remaining * feePips)
  {
    StepContract(current, target, liquidity, remaining, feePips);
    MissedStep(current, target, liquidity, remaining, feePips);
    InputGoesAsFarAsPaid(current, target, liquidity, remaining, feePips);
    var s := ComputeStep(current, target, liquidity, remaining, feePips).value;
    hide ComputeStep, InDelta, LessFee, Reaches, FitsWithInput;
    LessFeeShare(remaining, feePips, s.amountIn);
    if current < target {
      LessFeeShare(remaining, feePips, InDelta(current, s.sqrtRatioNext + 1, liquidity, false));
    } else if FitsWithInput(current, liquidity, remaining) {
      FitsLess(current, liquidity, remaining, feePips);
      LessFeeShare(remaining, feePips, InDelta(current, s.sqrtRatioNext - 1, liquidity, true));
    }
  }

  lemma MissedStep(current: nat, target: nat, liquidity: nat, remaining: nat, feePips: nat)
    requires 0 < current && 0 < target && feePips < MAX_FEE
    requires ComputeStep(current, target, liquidity, remaining, feePips).Success?
    requires !ComputeStep(current, target, liquidity, remaining, feePips).value.atTarget
    ensures !Reaches(current, target, liquidity, remaining, feePips)
    ensures var s := ComputeStep(current, target, liquidity, remaining, feePips).value;
            0 < s.sqrtRatioNext && s.amountIn == InDelta(current, s.sqrtRatioNext, liquidity, current >= target)
  {
    NextBetween(current, target, liquidity, remaining, feePips);
    hide GetAmount0Delta, GetAmount1Delta, LessFee, MulDivRoundingUp, Reaches, NextPrice;
  }

  // An input is within the amount less fee exactly if it leaves the fee its share.
  lemma LessFeeShare(remaining: nat, feePips: nat, input: nat)
    requires feePips < MAX_FEE
    ensures input <= LessFee(remaining, feePips) <==> (remaining - input) * 1_000_000 >= remaining * feePips
  {
    FloorGalois(remaining * (1_000_000 - feePips), 1_000_000, input);
    assert remaining * (1_000_000 - feePips) == remaining * 1_000_000 - remaining * feePips;
    assert (remaining - input) * 1_000_000 == remaining * 1_000_000 - input * 1_000_000;
  }

  lemma FitsLess(current: nat, liquidity: nat, remaining: nat, feePips: nat)
    requires feePips < MAX_FEE && FitsWithInput(current, liquidity, remaining)
    ensures FitsWithInput(current, liquidity, LessFee(remaining, feePips))
  {
    hide Numerator;
    var a := LessFee(remaining, feePips);
    LessFeeShare(remaining, feePips, a);
    if remaining < a {
      MulMono(0, remaining, feePips);
      assert false;
    }
    MulMono(a, remaining, current);
  }

  // The checks of the pool constructor, with the bounds spelled out.
  lemma ConstructorChecks(p: PoolState)
    ensures NewPool(p) == Failure("FEE") <==> 1_000_000 <= p.fee
    ensures p.fee < 1_000_000 ==> (NewPool(p) == Failure("TICK_SPACING") <==> p.tickSpacing <= 0)
    ensures p.fee < 1_000_000 && 0 < p.tickSpacing ==>
      (NewPool(p) == Failure("TICK") <==> p.tickCurrent < -887272 || 887272 <= p.tickCurrent)
    ensures NewPool(p).Success? <==>
      && p.fee < 1_000_000 && 0 < p.tickSpacing && -887272 <= p.tickCurrent < 887272
      && SqrtAt(p.tickCurrent) <= p.sqrtRatio <= SqrtAt(p.tickCurrent + 1)
    ensures NewPool(p).Success? ==> NewPool(p).value == p
  {
    hide SqrtAt;
  }

  // ----- units -----

  lemma {:induction false} NothingSet(ratio: nat, j: nat)
    requires j <= 20
    ensures Chain(ratio, 0, j) == ratio
    decreases 20 - j
  {
    if j < 20 { NothingSet(ratio, j + 1); }
  }

  lemma PriceOfZero()
    ensures SqrtAt(0) == 0x1_0000_0000_0000_0000_0000_0000
  {
    hide Chain;
    NothingSet(Q128, 0);
    assert TickRatio(0) == Q128;
    DivUnique(Q128 + Q32 - 1, Q32, 0x1_0000_0000_0000_0000_0000_0000);
  }

  // Prices are fixed point numbers with 96 fraction bits, in the amounts as in the tick prices: tick 0
  // has the price one. Words have 256 bits.
  lemma Units()
    ensures Q96 == 0x1_0000_0000_0000_0000_0000_0000 && SqrtAt(0) == 0x1_0000_0000_0000_0000_0000_0000
    ensures Q256 == 0x1_0000_0000_0000_0000_0000_0000_0000_0000_0000_0000_0000_0000_0000_0000_0000_0000
    ensures MAX_UINT256 == 0xffff_ffff_ffff_ffff_ffff_ffff_ffff_ffff_ffff_ffff_ffff_ffff_ffff_ffff_ffff_ffff
  {
    hide SqrtAt;
    SqrtAtBounds();
    Pow2Literals();
    Pow2Add(64, 32);
    Pow2Add(128, 128);
    PriceOfZero();
  }
}
