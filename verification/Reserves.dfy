// What a concentrated liquidity pool holds at a price, and the proof that no swap pays out more
// than the price move releases. This needs the whole loop: ticks, liquidity, rounding and fees.
module Reserves {
  import opened Arith
  import opened Results
  import opened TickMath
  import opened TickOfPrice
  import opened TickList
  import opened SqrtPriceMath
  import opened SwapMath
  import opened V3Swap

  // Liquidity in range on the unit price interval [q, q + 1).
  ghost function LiquidityAt(ticks: seq<Tick>, q: int): int
    requires MIN_SQRT_RATIO <= q < MAX_SQRT_RATIO
  {
    NetBelow(ticks, TickAt(q))
  }

  // Token1 that the positions below p hold, in units of 2^-96.
  ghost function Held1(ticks: seq<Tick>, p: int): int
    requires MIN_SQRT_RATIO <= p <= MAX_SQRT_RATIO
    decreases p
  {
    if p == MIN_SQRT_RATIO then 0 else Held1(ticks, p - 1) + LiquidityAt(ticks, p - 1)
  }

  // Token0 that the positions above p hold.
  ghost function Held0(ticks: seq<Tick>, p: int): real
    requires MIN_SQRT_RATIO <= p <= MAX_SQRT_RATIO
    decreases MAX_SQRT_RATIO - p
  {
    if p == MAX_SQRT_RATIO then 0.0
    else Held0(ticks, p + 1) + Scaled(LiquidityAt(ticks, p)) * (Inverse(p) - Inverse(p + 1))
  }

  function Scaled(liquidity: int): real {
    (liquidity * Q96) as real
  }

  function Inverse(p: int): real
    requires p > 0
  {
    1.0 / p as real
  }

  // ----- stretches of constant liquidity -----

  lemma {:induction false} Held1Linear(ticks: seq<Tick>, lo: int, hi: int, liquidity: int)
    requires MIN_SQRT_RATIO <= lo <= hi <= MAX_SQRT_RATIO
    requires forall q :: lo <= q < hi ==> LiquidityAt(ticks, q) == liquidity
    ensures Held1(ticks, hi) == Held1(ticks, lo) + liquidity * (hi - lo)
    decreases hi - lo
  {
    hide LiquidityAt;
    if lo < hi {
      Held1Linear(ticks, lo, hi - 1, liquidity);
      assert liquidity * (hi - lo) == liquidity * (hi - 1 - lo) + liquidity;
    }
  }

  // The exact amount of token0 between two prices.
  ghost function Exact0(liquidity: int, lo: int, hi: int): real
    requires 0 < lo && 0 < hi
  {
    Scaled(liquidity) * (Inverse(lo) - Inverse(hi))
  }

  lemma {:induction false} Held0Hyperbolic(ticks: seq<Tick>, lo: int, hi: int, liquidity: int)
    requires MIN_SQRT_RATIO <= lo <= hi <= MAX_SQRT_RATIO
    requires forall q :: lo <= q < hi ==> LiquidityAt(ticks, q) == liquidity
    ensures Held0(ticks, lo) == Held0(ticks, hi) + Exact0(liquidity, lo, hi)
    decreases hi - lo
  {
    hide LiquidityAt, Inverse, Scaled;
    if lo < hi {
      Held0Hyperbolic(ticks, lo + 1, hi, liquidity);
      Distribute(Scaled(liquidity), Inverse(lo), Inverse(lo + 1), Inverse(hi));
    } else {
      Distribute(Scaled(liquidity), Inverse(lo), Inverse(lo), Inverse(lo));
    }
  }

  lemma Distribute(n: real, a: real, b: real, c: real)
    ensures n * (b - c) + n * (a - b) == n * (a - c)
    ensures n * (a - a) == 0.0
  {
  }

  lemma InverseOrder(a: int, b: int)
    requires 0 < a < b
    ensures 0.0 < Inverse(b) < Inverse(a)
  {
    var x, y := a as real, b as real;
    InverseDifferenceReal(x, y);
    assert x * y > 0.0;
    if 1.0 / x <= 1.0 / y {
      ScaleReal(1.0 / x - 1.0 / y, 0.0, x * y);
    }
  }

  lemma InverseDifference(a: int, b: int)
    requires 0 < a && 0 < b
    ensures (Inverse(a) - Inverse(b)) * (a * b) as real == (b - a) as real
  {
    assert (a * b) as real == a as real * b as real;
    InverseDifferenceReal(a as real, b as real);
  }

  lemma InverseDifferenceReal(a: real, b: real)
    requires a > 0.0 && b > 0.0
    ensures (1.0 / a - 1.0 / b) * (a * b) == b - a
  {
    assert 1.0 / a * a == 1.0 && 1.0 / b * b == 1.0;
    assert (1.0 / a - 1.0 / b) * (a * b) == (1.0 / a * a) * b - (1.0 / b * b) * a;
  }

  lemma ScaleReal(x: real, y: real, c: real)
    requires c > 0.0
    ensures x <= y <==> x * c <= y * c
  {
    if x < y {
      assert (y - x) * c > 0.0;
    } else if y < x {
      assert (x - y) * c > 0.0;
    }
  }

  // The cross-multiplied bounds of the integer amounts, read as bounds on the exact amount.
  lemma CrossReal(k: int, liquidity: nat, lo: int, hi: int)
    requires 0 < lo <= hi
    ensures Numerator(liquidity) * (hi - lo) <= k * lo * hi <==> Exact0(liquidity, lo, hi) <= k as real
    ensures k * lo * hi <= Numerator(liquidity) * (hi - lo) <==> k as real <= Exact0(liquidity, lo, hi)
  {
    MulStrict(0, lo, hi);
    var n := Numerator(liquidity);
    var c := (lo * hi) as real;
    var d := Inverse(lo) - Inverse(hi);
    InverseDifference(lo, hi);
    assert Exact0(liquidity, lo, hi) == n as real * d;
    hide Exact0, Inverse, Numerator;
    assert (n as real * d) * c == n as real * (d * c) == (n * (hi - lo)) as real;
    assert k as real * c == (k * lo * hi) as real by { Reassociate(hi, k, lo); assert k * (lo * hi) == k * lo * hi; }
    ScaleReal(n as real * d, k as real, c);
    ScaleReal(k as real, n as real * d, c);
  }

  // ----- both holdings together determine the order of two prices -----

  lemma LiquidityNonNegative(ticks: seq<Tick>, spacing: int, q: int)
    requires GoodTicks(ticks, spacing) && MIN_SQRT_RATIO <= q < MAX_SQRT_RATIO
    ensures 0 <= LiquidityAt(ticks, q)
  {
    hide NetBelow;
  }

  lemma {:induction false} HeldMonotone(ticks: seq<Tick>, spacing: int, lo: int, hi: int)
    requires GoodTicks(ticks, spacing) && MIN_SQRT_RATIO <= lo <= hi <= MAX_SQRT_RATIO
    ensures Held1(ticks, lo) <= Held1(ticks, hi) && Held0(ticks, hi) <= Held0(ticks, lo)
    ensures Held1(ticks, lo) == Held1(ticks, hi) <==> Held0(ticks, lo) == Held0(ticks, hi)
    decreases hi - lo
  {
    hide LiquidityAt, GoodTicks, Inverse, Scaled;
    if lo < hi {
      LiquidityNonNegative(ticks, spacing, lo);
      HeldMonotone(ticks, spacing, lo + 1, hi);
      InverseOrder(lo, lo + 1);
      ScaledSign(LiquidityAt(ticks, lo));
      PositiveProduct(Scaled(LiquidityAt(ticks, lo)), Inverse(lo) - Inverse(lo + 1));
      Held1Step(ticks, lo);
    }
  }

  lemma Held1Step(ticks: seq<Tick>, p: int)
    requires MIN_SQRT_RATIO <= p < MAX_SQRT_RATIO
    ensures Held1(ticks, p + 1) == Held1(ticks, p) + LiquidityAt(ticks, p)
  {
    hide LiquidityAt;
  }

  lemma PositiveProduct(n: real, d: real)
    requires 0.0 <= n && 0.0 < d
    ensures 0.0 <= n * d && (n * d == 0.0 <==> n == 0.0)
  {
  }

  lemma ScaledSign(liquidity: int)
    requires 0 <= liquidity
    ensures 0.0 <= Scaled(liquidity) && (Scaled(liquidity) == 0.0 <==> liquidity == 0)
  {
    MulMono(0, liquidity, Q96);
    if liquidity > 0 {
      MulStrict(0, liquidity, Q96);
    }
  }

  // A price with no more token1 behind it has no less token0 ahead of it, and conversely.
  lemma HoldingsOppose(ticks: seq<Tick>, spacing: int, p: int, q: int)
    requires GoodTicks(ticks, spacing)
    requires MIN_SQRT_RATIO <= p <= MAX_SQRT_RATIO && MIN_SQRT_RATIO <= q <= MAX_SQRT_RATIO
    ensures Held1(ticks, p) <= Held1(ticks, q) <==> Held0(ticks, q) <= Held0(ticks, p)
  {
    hide Held0, Held1, GoodTicks;
    if p <= q {
      HeldMonotone(ticks, spacing, p, q);
    } else {
      HeldMonotone(ticks, spacing, q, p);
    }
  }

  // ----- one iteration -----

  // The liquidity the loop works with is the liquidity in range all the way from the start of an
  // iteration to its end.
  lemma LiquidityOnTheWay(env: Env, s: State, q: int)
    requires Inv(env, s) && StepOf(env, s).Success? && MIN_SQRT_RATIO <= q < MAX_SQRT_RATIO
    requires var n := StepOf(env, s).value.sqrtRatioNext;
             if env.zeroForOne then n <= q < s.sqrtPrice else s.sqrtPrice <= q < n
    ensures LiquidityAt(env.ticks, q) == s.liquidity
  {
    var next, t := TickNext(env, s).0, TickAt(q);
    PriceMoves(env, s);
    TargetSide(env, s);
    NextTickBounds(env, s);
    hide SqrtAt, TickNext, NetBelow, StepOf, Initialised, GoodTicks, StepHolds;
    if env.zeroForOne {
      if t < next { SqrtOrder(t + 1, next); }
      if s.tick < t { SqrtOrder(s.tick + 1, t); }
      NetUnchanged(env.ticks, t, s.tick);
    } else {
      if next <= t { SqrtOrder(next, t); }
      if t < s.tick { SqrtOrder(t + 1, s.tick); }
      NetUnchanged(env.ticks, s.tick, t);
    }
  }

  // The bounds of a step on the amounts between its two prices, cleared of denominators.
  ghost predicate Bounded(zeroForOne: bool, c: nat, n: nat, liquidity: nat, amountIn: nat, amountOut: nat) {
    if zeroForOne then
      n <= c && Numerator(liquidity) * (c - n) <= amountIn * n * c && amountOut * Q96 <= liquidity * (c - n)
    else
      c <= n && liquidity * (n - c) <= amountIn * Q96 && amountOut * c * n <= Numerator(liquidity) * (n - c)
  }

  lemma StepAmounts(env: Env, s: State)
    requires Inv(env, s) && StepOf(env, s).Success?
    ensures var step := StepOf(env, s).value;
            0 < s.sqrtPrice && 0 < step.sqrtRatioNext && 0 <= s.liquidity
            && Bounded(env.zeroForOne, s.sqrtPrice, step.sqrtRatioNext, s.liquidity, step.amountIn, step.amountOut)
  {
    PositivePrices(env, s);
    TargetSide(env, s);
    hide SqrtAt, TickNext, GoodEnv, Target, NetBelow, ComputeStep, PriceInTick, Bounded;
    BoundedStep(env.zeroForOne, s.sqrtPrice, Target(env, SqrtAt(TickNext(env, s).0)), s.liquidity, s.remaining, env.fee);
  }

  lemma BoundedStep(zeroForOne: bool, c: nat, target: nat, liquidity: nat, remaining: int, fee: nat)
    requires 0 < c && 0 < target && fee < MAX_FEE && ComputeStep(c, target, liquidity, remaining, fee).Success?
    requires if zeroForOne then target <= c else c <= target
    ensures var step := ComputeStep(c, target, liquidity, remaining, fee).value;
            0 < step.sqrtRatioNext
            && Bounded(zeroForOne, c, step.sqrtRatioNext, liquidity, step.amountIn, step.amountOut)
  {
    if zeroForOne {
      StepDown(c, target, liquidity, remaining, fee);
    } else if c < target {
      StepUp(c, target, liquidity, remaining, fee);
    } else {
      IdleStep(c, liquidity, remaining, fee);
      NoMove(liquidity, c);
    }
    hide ComputeStep, Numerator;
  }

  lemma NoMove(liquidity: nat, c: nat)
    ensures liquidity * (c - c) == 0 && 0 * c * c == 0 && Numerator(liquidity) * (c - c) == 0
  {
  }

  lemma StepDown(c: nat, target: nat, liquidity: nat, remaining: int, fee: nat)
    requires 0 < target <= c && fee < MAX_FEE && ComputeStep(c, target, liquidity, remaining, fee).Success?
    ensures var s := ComputeStep(c, target, liquidity, remaining, fee).value;
            && 0 < s.sqrtRatioNext <= c
            && Numerator(liquidity) * (c - s.sqrtRatioNext) <= s.amountIn * s.sqrtRatioNext * c
            && s.amountOut * Q96 <= liquidity * (c - s.sqrtRatioNext)
  {
    var s := ComputeStep(c, target, liquidity, remaining, fee).value;
    NextBetween(c, target, liquidity, remaining, fee);
    hide GetAmount0Delta, GetAmount1Delta, NextPrice, MulDivRoundingUp, Numerator, Reaches;
    Amount0UpGalois(s.sqrtRatioNext, c, liquidity, s.amountIn);
    Amount1DownGalois(s.sqrtRatioNext, c, liquidity, s.amountOut);
  }

  lemma StepUp(c: nat, target: nat, liquidity: nat, remaining: int, fee: nat)
    requires 0 < c < target && fee < MAX_FEE && ComputeStep(c, target, liquidity, remaining, fee).Success?
    ensures var s := ComputeStep(c, target, liquidity, remaining, fee).value;
            && c <= s.sqrtRatioNext
            && liquidity * (s.sqrtRatioNext - c) <= s.amountIn * Q96
            && s.amountOut * c * s.sqrtRatioNext <= Numerator(liquidity) * (s.sqrtRatioNext - c)
  {
    var s := ComputeStep(c, target, liquidity, remaining, fee).value;
    NextBetween(c, target, liquidity, remaining, fee);
    hide GetAmount0Delta, GetAmount1Delta, NextPrice, MulDivRoundingUp, Numerator, Reaches;
    Amount1UpGalois(c, s.sqrtRatioNext, liquidity, s.amountIn);
    Amount0DownGalois(c, s.sqrtRatioNext, liquidity, s.amountOut);
  }

  // What a price move from p to q adds to the pool on its input side and releases on its output
  // side, both rounded against the trader.
  ghost predicate Covers(ticks: seq<Tick>, zeroForOne: bool, p: int, q: int, paid: int, received: int)
    requires MIN_SQRT_RATIO <= p <= MAX_SQRT_RATIO && MIN_SQRT_RATIO <= q <= MAX_SQRT_RATIO
  {
    if zeroForOne then
      && Held0(ticks, q) - Held0(ticks, p) <= paid as real
      && received * Q96 <= Held1(ticks, p) - Held1(ticks, q)
    else
      && Held1(ticks, q) - Held1(ticks, p) <= paid * Q96
      && received as real <= Held0(ticks, p) - Held0(ticks, q)
  }

  lemma PriceInRange(env: Env, s: State)
    requires Inv(env, s)
    ensures MIN_SQRT_RATIO <= s.sqrtPrice <= MAX_SQRT_RATIO
  {
    StartInRange(env, s);
  }

  lemma BoundedDown(c: nat, n: nat, liquidity: nat, amountIn: nat, amountOut: nat)
    requires Bounded(true, c, n, liquidity, amountIn, amountOut)
    ensures n <= c && Numerator(liquidity) * (c - n) <= amountIn * n * c && amountOut * Q96 <= liquidity * (c - n)
  {
    hide Numerator;
  }

  lemma BoundedUp(c: nat, n: nat, liquidity: nat, amountIn: nat, amountOut: nat)
    requires Bounded(false, c, n, liquidity, amountIn, amountOut)
    ensures c <= n && liquidity * (n - c) <= amountIn * Q96 && amountOut * c * n <= Numerator(liquidity) * (n - c)
  {
    hide Numerator;
  }

  lemma StepPrice(env: Env, s: State)
    requires Inv(env, s) && Iterate(env, s).Success?
    ensures StepOf(env, s).Success? && Iterate(env, s).value.sqrtPrice == StepOf(env, s).value.sqrtRatioNext
  {
    hide Inv, StepOf, TickAfter, LiquidityAfter;
  }

  lemma IterationCovers(env: Env, s: State)
    requires Inv(env, s) && Guard(s) && Iterate(env, s).Success?
    ensures var step, s' := StepOf(env, s).value, Iterate(env, s).value;
            && Inv(env, s') && MIN_SQRT_RATIO <= s.sqrtPrice <= MAX_SQRT_RATIO && MIN_SQRT_RATIO <= s'.sqrtPrice <= MAX_SQRT_RATIO
            && Covers(env.ticks, env.zeroForOne, s.sqrtPrice, s'.sqrtPrice, step.amountIn, step.amountOut)
  {
    hide *;
    IterationContract(env, s);
    StepPrice(env, s);
    StepAmounts(env, s);
    var step, s' := StepOf(env, s).value, Iterate(env, s).value;
    PriceInRange(env, s);
    PriceInRange(env, s');
    var c, n := s.sqrtPrice, s'.sqrtPrice;
    assert Bounded(env.zeroForOne, c, n, s.liquidity, step.amountIn, step.amountOut);
    forall q | (if env.zeroForOne then n <= q < c else c <= q < n)
      ensures MIN_SQRT_RATIO <= q < MAX_SQRT_RATIO && LiquidityAt(env.ticks, q) == s.liquidity
    {
      LiquidityOnTheWay(env, s, q);
    }
    if env.zeroForOne {
      BoundedDown(c, n, s.liquidity, step.amountIn, step.amountOut);
      CoversDown(env.ticks, n, c, s.liquidity, step.amountIn, step.amountOut);
    } else {
      BoundedUp(c, n, s.liquidity, step.amountIn, step.amountOut);
      CoversUp(env.ticks, c, n, s.liquidity, step.amountIn, step.amountOut);
    }
  }

  lemma CoversDown(ticks: seq<Tick>, n: int, c: int, liquidity: nat, amountIn: nat, amountOut: nat)
    requires MIN_SQRT_RATIO <= n <= c <= MAX_SQRT_RATIO
    requires forall q :: n <= q < c ==> LiquidityAt(ticks, q) == liquidity
    requires Numerator(liquidity) * (c - n) <= amountIn * n * c && amountOut * Q96 <= liquidity * (c - n)
    ensures Covers(ticks, true, c, n, amountIn, amountOut)
  {
    hide LiquidityAt, Exact0, Held0, Held1, Numerator;
    Held0Hyperbolic(ticks, n, c, liquidity);
    Held1Linear(ticks, n, c, liquidity);
    CrossReal(amountIn, liquidity, n, c);
  }

  lemma CoversUp(ticks: seq<Tick>, c: int, n: int, liquidity: nat, amountIn: nat, amountOut: nat)
    requires MIN_SQRT_RATIO <= c <= n <= MAX_SQRT_RATIO
    requires forall q :: c <= q < n ==> LiquidityAt(ticks, q) == liquidity
    requires liquidity * (n - c) <= amountIn * Q96 && amountOut * c * n <= Numerator(liquidity) * (n - c)
    ensures Covers(ticks, false, c, n, amountIn, amountOut)
  {
    hide LiquidityAt, Exact0, Held0, Held1, Numerator;
    Held0Hyperbolic(ticks, c, n, liquidity);
    Held1Linear(ticks, c, n, liquidity);
    CrossReal(amountOut, liquidity, c, n);
  }

  // ----- whole swaps -----

  // Over any number of iterations the trader pays, fees apart, at least what the price move adds to
  // the pool and receives at most what it releases.
  lemma {:induction false} RunCovers(env: Env, s: State, n: nat)
    requires Inv(env, s) && RunFrom(env, s, n).Success?
    ensures var e := RunFrom(env, s, n).value;
            && MIN_SQRT_RATIO <= s.sqrtPrice <= MAX_SQRT_RATIO && MIN_SQRT_RATIO <= e.sqrtPrice <= MAX_SQRT_RATIO
            && Covers(env.ticks, env.zeroForOne, s.sqrtPrice, e.sqrtPrice, Paid(env, s, n) - Fees(env, s, n), Received(env, s, n))
    decreases n, 1
  {
    PriceInRange(env, s);
    TotalsUnfold(env, s, n);
    if n > 0 && Guard(s) {
      RunCoversStep(env, s, n);
    } else {
      hide *;
      CoversNothing(env.ticks, env.zeroForOne, s.sqrtPrice);
    }
  }

  lemma RunCoversStep(env: Env, s: State, n: nat)
    requires Inv(env, s) && RunFrom(env, s, n).Success? && n > 0 && Guard(s)
    ensures var e := RunFrom(env, s, n).value;
            && MIN_SQRT_RATIO <= s.sqrtPrice <= MAX_SQRT_RATIO && MIN_SQRT_RATIO <= e.sqrtPrice <= MAX_SQRT_RATIO
            && Covers(env.ticks, env.zeroForOne, s.sqrtPrice, e.sqrtPrice, Paid(env, s, n) - Fees(env, s, n), Received(env, s, n))
    decreases n, 0
  {
    hide *;
    TotalsUnfold(env, s, n);
    assert Iterate(env, s).Success?;
    StepPrice(env, s);
    IterationCovers(env, s);
    var s', step := Iterate(env, s).value, StepOf(env, s).value;
    assert RunFrom(env, s', n - 1).Success?;
    RunCovers(env, s', n - 1);
    CoversAdd(env.ticks, env.zeroForOne, s.sqrtPrice, s'.sqrtPrice, RunFrom(env, s', n - 1).value.sqrtPrice,
              step.amountIn, step.amountOut, Paid(env, s', n - 1) - Fees(env, s', n - 1), Received(env, s', n - 1));
  }

  lemma CoversAdd(ticks: seq<Tick>, zeroForOne: bool, p: int, q: int, r: int, paid: int, got: int, paid': int, got': int)
    requires MIN_SQRT_RATIO <= p <= MAX_SQRT_RATIO && MIN_SQRT_RATIO <= q <= MAX_SQRT_RATIO
    requires MIN_SQRT_RATIO <= r <= MAX_SQRT_RATIO
    requires Covers(ticks, zeroForOne, p, q, paid, got) && Covers(ticks, zeroForOne, q, r, paid', got')
    ensures Covers(ticks, zeroForOne, p, r, paid + paid', got + got')
  {
    hide Held0, Held1;
  }

  // ----- whole pools -----

  // The pool the caller rebuilds from the result of a swap.
  function After(p: PoolState, r: SwapResult): PoolState {
    p.(sqrtRatio := r.sqrtRatio, tickCurrent := r.tickCurrent, liquidity := r.liquidity)
  }

  function LimitOf(zeroForOne: bool, sqrtPriceLimit: Option<nat>): nat {
    if sqrtPriceLimit.None? then DefaultLimit(zeroForOne) else sqrtPriceLimit.value
  }

  // What the trader paid and received, as far as the returned amount tells: an exact input swap may
  // leave input unspent, and an exact output swap may deliver less than asked. The price move is paid
  // for by what is left of the payment after the fee.
  ghost predicate Settled(p: PoolState, zeroForOne: bool, amountSpecified: int, r: SwapResult)
    requires MIN_SQRT_RATIO <= p.sqrtRatio <= MAX_SQRT_RATIO && MIN_SQRT_RATIO <= r.sqrtRatio <= MAX_SQRT_RATIO
  {
    if amountSpecified >= 0 then
      r.amountCalculated <= 0
      && exists net :: LessFeeShare(net, amountSpecified, p.fee)
                       && Covers(p.ticks, zeroForOne, p.sqrtRatio, r.sqrtRatio, net, -r.amountCalculated)
    else
      r.amountCalculated >= 0
      && exists net, got :: LessFeeShare(net, r.amountCalculated, p.fee) && 0 <= got <= -amountSpecified
                       && Covers(p.ticks, zeroForOne, p.sqrtRatio, r.sqrtRatio, net, got)
  }

  // What is left of a payment once the fee's millionths of it are taken.
  predicate LessFeeShare(net: int, paid: int, fee: nat) {
    net * 1_000_000 <= paid * (1_000_000 - fee)
  }

  lemma PoolPriceInRange(p: PoolState)
    requires GoodPool(p)
    ensures MIN_SQRT_RATIO <= p.sqrtRatio <= MAX_SQRT_RATIO
  {
    hide SqrtAt, GoodTicks;
    SqrtAtPositive(p.tickCurrent);
    SqrtAtPositive(p.tickCurrent + 1);
  }

  lemma CoversNothing(ticks: seq<Tick>, zeroForOne: bool, p: int)
    requires MIN_SQRT_RATIO <= p <= MAX_SQRT_RATIO
    ensures Covers(ticks, zeroForOne, p, p, 0, 0)
  {
    hide Held0, Held1;
  }

  // Every successful swap, in either direction and mode and under any limit: the rebuilt pool
  // passes its own PRICE_BOUNDS check and its liquidity is that of its tick; the price moved only
  // towards the limit and not past it; and the pool was paid at least what the move added to it
  // and paid out at most what the move released.
  lemma SwapContract(p: PoolState, zeroForOne: bool, amountSpecified: int, sqrtPriceLimit: Option<nat>)
    requires GoodPool(p) && Swap(p, zeroForOne, amountSpecified, sqrtPriceLimit).Success?
    ensures var r := Swap(p, zeroForOne, amountSpecified, sqrtPriceLimit).value;
            var limit := LimitOf(zeroForOne, sqrtPriceLimit);
            && GoodPool(After(p, r))
            && (if zeroForOne then limit <= r.sqrtRatio <= p.sqrtRatio else p.sqrtRatio <= r.sqrtRatio <= limit)
            && MIN_SQRT_RATIO <= p.sqrtRatio <= MAX_SQRT_RATIO && MIN_SQRT_RATIO <= r.sqrtRatio <= MAX_SQRT_RATIO
            && Settled(p, zeroForOne, amountSpecified, r)
  {
    PoolPriceInRange(p);
    if amountSpecified == 0 {
      hide Settled, GoodTicks, NetBelow, PriceInTick;
      NothingIsSettled(p, zeroForOne);
    } else {
      RunOfSwap(p, zeroForOne, amountSpecified, LimitOf(zeroForOne, sqrtPriceLimit));
      hide Settled, GoodTicks, NetBelow, PriceInTick, FinalState;
    }
  }

  lemma NothingIsSettled(p: PoolState, zeroForOne: bool)
    requires MIN_SQRT_RATIO <= p.sqrtRatio <= MAX_SQRT_RATIO
    ensures Settled(p, zeroForOne, 0, SwapResult(0, p.sqrtRatio, p.liquidity, p.tickCurrent))
  {
    CoversNothing(p.ticks, zeroForOne, p.sqrtRatio);
    hide Covers;
    assert LessFeeShare(0, 0, p.fee);
  }

  lemma RunOfSwap(p: PoolState, zeroForOne: bool, amountSpecified: int, limit: nat)
    requires GoodPool(p) && p.ticks != [] && LimitError(zeroForOne, limit, p.sqrtRatio) == None
    requires FinalState(p, zeroForOne, amountSpecified, limit).Success?
    ensures var e := FinalState(p, zeroForOne, amountSpecified, limit).value;
            var r := SwapResult(e.calculated, e.sqrtPrice, e.liquidity, e.tick);
            && GoodPool(After(p, r))
            && (if zeroForOne then limit <= e.sqrtPrice <= p.sqrtRatio else p.sqrtRatio <= e.sqrtPrice <= limit)
            && MIN_SQRT_RATIO <= p.sqrtRatio <= MAX_SQRT_RATIO && MIN_SQRT_RATIO <= e.sqrtPrice <= MAX_SQRT_RATIO
            && Settled(p, zeroForOne, amountSpecified, r)
            && (e.remaining == 0 || e.sqrtPrice == limit)
  {
    hide GoodPool, Inv, RunFrom, FinalState, Settled, SqrtAt, Distance, Covers;
    var env, start := EnvOf(p, zeroForOne, amountSpecified, limit), StartOf(p, amountSpecified);
    StartIsGood(p, zeroForOne, amountSpecified, limit);
    var n := Distance(env, start) + 1;
    FinalIsRun(p, zeroForOne, amountSpecified, limit);
    DistanceBound(env, start);
    RunContract(env, start, n);
    RunCovers(env, start, n);
    RunEnds(env, start, n);
    RunFees(env, start, n);
    GoodPoolTicks(p);
    var e := RunFrom(env, start, n).value;
    EndOfSwap(p, zeroForOne, amountSpecified, limit, e);
    SettledFrom(p, zeroForOne, amountSpecified, e, Paid(env, start, n), Fees(env, start, n), Received(env, start, n));
  }

  lemma FinalIsRun(p: PoolState, zeroForOne: bool, amountSpecified: int, limit: nat)
    requires GoodPool(p) && p.ticks != [] && LimitError(zeroForOne, limit, p.sqrtRatio) == None
    ensures
      var env, start := EnvOf(p, zeroForOne, amountSpecified, limit), StartOf(p, amountSpecified);
      Inv(env, start) && FinalState(p, zeroForOne, amountSpecified, limit) == RunFrom(env, start, Distance(env, start) + 1)
  {
    StartIsGood(p, zeroForOne, amountSpecified, limit);
    hide GoodPool, Inv, RunFrom, Distance;
  }

  lemma EndOfSwap(p: PoolState, zeroForOne: bool, amountSpecified: int, limit: nat, e: State)
    requires GoodPool(p) && Inv(EnvOf(p, zeroForOne, amountSpecified, limit), e)
    ensures GoodPool(After(p, SwapResult(e.calculated, e.sqrtPrice, e.liquidity, e.tick)))
    ensures if zeroForOne then limit <= e.sqrtPrice else e.sqrtPrice <= limit
    ensures if amountSpecified >= 0 then 0 <= e.remaining else e.remaining <= 0
    ensures e.atLimit ==> e.sqrtPrice == limit
  {
    hide GoodTicks, NetBelow, SqrtAt;
  }

  lemma SettledFrom(p: PoolState, zeroForOne: bool, amountSpecified: int, e: State, paid: int, fees: int, got: int)
    requires MIN_SQRT_RATIO <= p.sqrtRatio <= MAX_SQRT_RATIO && MIN_SQRT_RATIO <= e.sqrtPrice <= MAX_SQRT_RATIO
    requires Covers(p.ticks, zeroForOne, p.sqrtRatio, e.sqrtPrice, paid - fees, got) && 0 <= paid && 0 <= got
    requires p.fee < MAX_FEE && paid * p.fee <= fees * 1_000_000
    requires amountSpecified >= 0 ==> amountSpecified == e.remaining + paid && e.calculated == -got && 0 <= e.remaining
    requires amountSpecified < 0 ==> amountSpecified == e.remaining - got && e.calculated == paid && e.remaining <= 0
    ensures Settled(p, zeroForOne, amountSpecified, SwapResult(e.calculated, e.sqrtPrice, e.liquidity, e.tick))
  {
    hide Covers;
    NetOfFees(paid, fees, p.fee, if amountSpecified >= 0 then amountSpecified else paid);
    assert LessFeeShare(paid - fees, if amountSpecified >= 0 then amountSpecified else paid, p.fee);
  }

  lemma NetOfFees(paid: int, fees: int, fee: nat, more: int)
    requires paid * fee <= fees * 1_000_000 && fee < 1_000_000 && paid <= more
    ensures (paid - fees) * 1_000_000 <= more * (1_000_000 - fee)
  {
    assert paid * (1_000_000 - fee) == paid * 1_000_000 - paid * fee;
    MulMono(paid, more, 1_000_000 - fee);
  }

  // ----- the pool entity -----

  // The checks of the pool constructor; the tick list is carried over unchanged.
  function NewPool(p: PoolState): Result<PoolState> {
    if MAX_FEE <= p.fee then Failure("FEE")
    else if p.tickSpacing <= 0 then Failure("TICK_SPACING")
    else if !(MIN_TICK <= p.tickCurrent <= MAX_TICK) || !(MIN_TICK <= p.tickCurrent + 1 <= MAX_TICK) then Failure("TICK")
    else if !(SqrtAt(p.tickCurrent) <= p.sqrtRatio <= SqrtAt(p.tickCurrent + 1)) then Failure("PRICE_BOUNDS")
    else Success(p)
  }

  // The constructor never rejects the pool rebuilt from a successful swap.
  lemma RebuildSucceeds(p: PoolState, zeroForOne: bool, amountSpecified: int, limit: Option<nat>)
    requires GoodPool(p) && Swap(p, zeroForOne, amountSpecified, limit).Success?
    ensures var r := Swap(p, zeroForOne, amountSpecified, limit).value;
            && NewPool(After(p, r)) == Success(After(p, r)) && GoodPool(After(p, r))
            && (if amountSpecified >= 0 then r.amountCalculated <= 0 else 0 <= r.amountCalculated)
  {
    SwapContract(p, zeroForOne, amountSpecified, limit);
    hide SqrtAt, Swap, Covers, NetBelow;
  }

  lemma NothingSpecified(p: PoolState, zeroForOne: bool, limit: Option<nat>)
    requires GoodPool(p)
    ensures var r := Swap(p, zeroForOne, 0, limit);
            r.Success? ==> r.value.amountCalculated == 0 && After(p, r.value) == p
  {
    hide GoodPool, SqrtAt;
  }

  // A swap and the pool rebuilt from its result.
  ghost function SwapAndRebuild(p: PoolState, zeroForOne: bool, amountSpecified: int, limit: Option<nat>): (r: Result<(int, PoolState)>)
    requires GoodPool(p)
    ensures r.Success? ==> GoodPool(r.value.1)
    ensures r.Success? ==> if amountSpecified >= 0 then r.value.0 <= 0 else 0 <= r.value.0
    ensures r.Success? && amountSpecified == 0 ==> r.value == (0, p)
  {
    hide GoodPool, Swap, NewPool, After;
    NothingSpecified(p, zeroForOne, limit);
    match Swap(p, zeroForOne, amountSpecified, limit)
    case Failure(error) => Failure(error)
    case Success(swap) =>
      RebuildSucceeds(p, zeroForOne, amountSpecified, limit);
      match NewPool(After(p, swap))
      case Failure(error) => Failure(error)
      case Success(pool) => Success((swap.amountCalculated, pool))
  }

  // Output of an exact input swap and the pool afterwards.
  ghost function GetOutputAmount(p: PoolState, zeroForOne: bool, amount: nat, limit: Option<nat>): (r: Result<(int, PoolState)>)
    requires GoodPool(p)
    ensures r.Success? ==> GoodPool(r.value.1) && 0 <= r.value.0
  {
    hide GoodPool, SwapAndRebuild;
    match SwapAndRebuild(p, zeroForOne, amount, limit)
    case Failure(error) => Failure(error)
    case Success(done) => Success((-done.0, done.1))
  }

  // Input of an exact output swap and the pool afterwards; asking for nothing changes nothing.
  ghost function GetInputAmount(p: PoolState, zeroForOne: bool, amount: nat, limit: Option<nat>): (r: Result<(int, PoolState)>)
    requires GoodPool(p)
    ensures r.Success? ==> GoodPool(r.value.1) && 0 <= r.value.0
    ensures r.Success? && amount == 0 ==> r.value == (0, p)
  {
    hide GoodPool, SwapAndRebuild;
    SwapAndRebuild(p, zeroForOne, -(amount as int), limit)
  }

  // Rebuilding the pool adds no failure to those of the swap.
  lemma RebuildNeverFails(p: PoolState, zeroForOne: bool, amountSpecified: int, limit: Option<nat>)
    requires GoodPool(p)
    ensures SwapAndRebuild(p, zeroForOne, amountSpecified, limit).Failure? <==> Swap(p, zeroForOne, amountSpecified, limit).Failure?
  {
    hide GoodPool, Swap, NewPool, After;
    if Swap(p, zeroForOne, amountSpecified, limit).Success? {
      RebuildSucceeds(p, zeroForOne, amountSpecified, limit);
    }
  }

  // What a successful exact input quote says about the two pools: the price move is paid for by what the
  // fee leaves of the amount.
  lemma QuoteCovers(p: PoolState, zeroForOne: bool, amount: nat, limit: Option<nat>) returns (net: int)
    requires GoodPool(p) && GetOutputAmount(p, zeroForOne, amount, limit).Success?
    ensures net * 1_000_000 <= amount * (1_000_000 - p.fee)
    ensures var (out, q) := GetOutputAmount(p, zeroForOne, amount, limit).value;
            && q.ticks == p.ticks && q.tickSpacing == p.tickSpacing && q.fee == p.fee
            && MIN_SQRT_RATIO <= p.sqrtRatio <= MAX_SQRT_RATIO && MIN_SQRT_RATIO <= q.sqrtRatio <= MAX_SQRT_RATIO
            && Covers(p.ticks, zeroForOne, p.sqrtRatio, q.sqrtRatio, net, out)
  {
    hide GoodPool, Swap, Covers, GetOutputAmount;
    QuoteIsSwap(p, zeroForOne, amount, limit);
    SwapContract(p, zeroForOne, amount, limit);
    var r := Swap(p, zeroForOne, amount, limit).value;
    net :| LessFeeShare(net, amount, p.fee) && Covers(p.ticks, zeroForOne, p.sqrtRatio, r.sqrtRatio, net, -r.amountCalculated);
  }

  // What a quote takes from its swap.
  lemma QuoteIsSwap(p: PoolState, zeroForOne: bool, amount: nat, limit: Option<nat>)
    requires GoodPool(p) && GetOutputAmount(p, zeroForOne, amount, limit).Success?
    ensures Swap(p, zeroForOne, amount, limit).Success?
    ensures var (out, q) := GetOutputAmount(p, zeroForOne, amount, limit).value;
            var r := Swap(p, zeroForOne, amount, limit).value;
            q == After(p, r) && out == -r.amountCalculated
  {
    hide GoodPool, Swap, NewPool;
    RebuildNeverFails(p, zeroForOne, amount, limit);
    RebuildSucceeds(p, zeroForOne, amount, limit);
  }

  // A move that is paid for, and one back that is paid for with no more than was received.
  lemma ThereAndBack(ticks: seq<Tick>, spacing: int, zeroForOne: bool, p: int, q: int, h: int, amount: int, out: int, back: int, got: int)
    requires GoodTicks(ticks, spacing) && back <= out
    requires MIN_SQRT_RATIO <= p <= MAX_SQRT_RATIO && MIN_SQRT_RATIO <= q <= MAX_SQRT_RATIO && MIN_SQRT_RATIO <= h <= MAX_SQRT_RATIO
    requires Covers(ticks, zeroForOne, p, q, amount, out) && Covers(ticks, !zeroForOne, q, h, back, got)
    ensures got <= amount
  {
    hide Held0, Held1, GoodTicks, Pow2;
    HoldingsOppose(ticks, spacing, p, h);
    HoldingsOppose(ticks, spacing, h, p);
    MulMono(back, out, Q96);
    if !zeroForOne {
      MulCancel(got, amount, Q96);
    }
  }

  // Swapping back no more than was received returns no more than what the first swap's fee left of the
  // payment, whatever the ticks, the liquidity, the direction and the limits of both swaps: a round trip
  // loses at least the fee.
  lemma RoundTripNeverProfits(p: PoolState, zeroForOne: bool, amount: nat, limit: Option<nat>, back: nat, limit': Option<nat>)
    requires GoodPool(p) && GetOutputAmount(p, zeroForOne, amount, limit).Success?
    requires var (out, q) := GetOutputAmount(p, zeroForOne, amount, limit).value;
             back <= out && GetOutputAmount(q, !zeroForOne, back, limit').Success?
    ensures var (out, q) := GetOutputAmount(p, zeroForOne, amount, limit).value;
            var got := GetOutputAmount(q, !zeroForOne, back, limit').value.0;
            got <= amount && got * 1_000_000 <= amount * (1_000_000 - p.fee)
  {
    hide Covers, GoodPool, GoodTicks, Swap, GetOutputAmount;
    var (out, q) := GetOutputAmount(p, zeroForOne, amount, limit).value;
    var (got, home) := GetOutputAmount(q, !zeroForOne, back, limit').value;
    var net := QuoteCovers(p, zeroForOne, amount, limit);
    var net' := QuoteCovers(q, !zeroForOne, back, limit');
    GoodPoolTicks(p);
    NetIsLess(net', back, p.fee);
    ThereAndBack(p.ticks, p.tickSpacing, zeroForOne, p.sqrtRatio, q.sqrtRatio, home.sqrtRatio, net, out, net', got);
    NetIsLess(net, amount, p.fee);
  }

  lemma NetIsLess(net: int, paid: nat, fee: nat)
    requires net * 1_000_000 <= paid * (1_000_000 - fee) && fee < 1_000_000
    ensures net <= paid
  {
    MulMono(0, paid, fee);
    assert paid * (1_000_000 - fee) == paid * 1_000_000 - paid * fee;
  }

  lemma GoodPoolTicks(p: PoolState)
    requires GoodPool(p)
    ensures GoodTicks(p.ticks, p.tickSpacing) && p.fee < 1_000_000
  {
  }
}
