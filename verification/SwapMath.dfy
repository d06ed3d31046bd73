// One step of a concentrated liquidity swap: how far the price moves towards a target, and what
// is paid and received on the way.
module SwapMath {
  import opened Arith
  import opened Results
  import opened SqrtPriceMath

  const MAX_FEE: nat := 1_000_000

  // atTarget records that the returned price is the target itself rather than a computed price.
  datatype Step = Step(sqrtRatioNext: nat, amountIn: nat, amountOut: nat, feeAmount: int, atTarget: bool)

  function InDelta(current: nat, next: nat, liquidity: nat, zeroForOne: bool): nat
    requires 0 < current && 0 < next
  {
    if zeroForOne then GetAmount0Delta(next, current, liquidity, true)
    else GetAmount1Delta(current, next, liquidity, true)
  }

  function OutDelta(current: nat, next: nat, liquidity: nat, zeroForOne: bool): nat
    requires 0 < current && 0 < next
  {
    if zeroForOne then GetAmount1Delta(next, current, liquidity, false)
    else GetAmount0Delta(current, next, liquidity, false)
  }

  function GetNextSqrtPriceFromInput(sqrtP: nat, liquidity: nat, amountIn: nat, zeroForOne: bool): Result<nat> {
    if sqrtP == 0 || liquidity == 0 then Failure("Invariant failed")
    else if zeroForOne then GetNextSqrtPriceFromAmount0RoundingUp(sqrtP, liquidity, amountIn, true)
    else GetNextSqrtPriceFromAmount1RoundingDown(sqrtP, liquidity, amountIn, true)
  }

  function GetNextSqrtPriceFromOutput(sqrtP: nat, liquidity: nat, amountOut: nat, zeroForOne: bool): Result<nat> {
    if sqrtP == 0 || liquidity == 0 then Failure("Invariant failed")
    else if zeroForOne then GetNextSqrtPriceFromAmount1RoundingDown(sqrtP, liquidity, amountOut, false)
    else GetNextSqrtPriceFromAmount0RoundingUp(sqrtP, liquidity, amountOut, false)
  }

  function LessFee(amount: nat, feePips: nat): (r: nat)
    requires feePips < MAX_FEE
  {
    DivDown(amount * (MAX_FEE - feePips), MAX_FEE)
  }

  // Whether the amount left covers the whole way to the target.
  predicate Reaches(current: nat, target: nat, liquidity: nat, remaining: int, feePips: nat)
    requires 0 < current && 0 < target && feePips < MAX_FEE
  {
    var zeroForOne := current >= target;
    if remaining >= 0 then InDelta(current, target, liquidity, zeroForOne) <= LessFee(remaining, feePips)
    else OutDelta(current, target, liquidity, zeroForOne) <= -remaining
  }

  function NextPrice(current: nat, target: nat, liquidity: nat, remaining: int, feePips: nat): Result<nat>
    requires 0 < current && 0 < target && feePips < MAX_FEE
  {
    var zeroForOne := current >= target;
    if Reaches(current, target, liquidity, remaining, feePips) then Success(target)
    else if remaining >= 0 then
      GetNextSqrtPriceFromInput(current, liquidity, LessFee(remaining, feePips), zeroForOne)
    else
      GetNextSqrtPriceFromOutput(current, liquidity, -remaining, zeroForOne)
  }

  // ----- price bounds of the four cases -----

  lemma MissesInputZeroForOne(c: nat, t: nat, liquidity: nat, a: nat)
    requires 0 < t <= c && a < GetAmount0Delta(t, c, liquidity, true)
    ensures var r := GetNextSqrtPriceFromInput(c, liquidity, a, true);
            r.Success? && t < r.value <= c && GetAmount0Delta(r.value, c, liquidity, true) <= a
  {
    hide Numerator, GetAmount0Delta, GetNextSqrtPriceFromAmount0RoundingUp;
    var n := Numerator(liquidity);
    Amount0UpGalois(t, c, liquidity, a);
    MulMono(0, a, t);
    MulMono(0, a * t, c);
    SomeLiquidity(liquidity, n, c - t);
    if a == 0 {
      NoAmount(c, liquidity);
      Amount0UpGalois(c, c, liquidity, 0);
    } else {
      CrossInput(n, c, t, a);
      AddAmount0(c, liquidity, a, t);
      var next := GetNextSqrtPriceFromInput(c, liquidity, a, true).value;
      CrossInput(n, c, next, a);
      Amount0UpGalois(next, c, liquidity, a);
    }
  }

  lemma NoAmount(c: nat, liquidity: nat)
    requires 0 < c && 0 < liquidity
    ensures GetNextSqrtPriceFromAmount0RoundingUp(c, liquidity, 0, true) == Success(c)
  {
  }

  lemma MissesInputOneForZero(c: nat, t: nat, liquidity: nat, a: nat)
    requires 0 < c <= t && a < GetAmount1Delta(c, t, liquidity, true)
    ensures var r := GetNextSqrtPriceFromInput(c, liquidity, a, false);
            r.Success? && c <= r.value < t && GetAmount1Delta(c, r.value, liquidity, true) <= a
  {
    hide GetAmount1Delta, GetNextSqrtPriceFromAmount1RoundingDown, Pow2;
    Amount1UpGalois(c, t, liquidity, a);
    MulMono(0, a, Q96);
    Positive(liquidity, t - c);
    AddAmount1(c, liquidity, a, t);
    Amount1UpGalois(c, GetNextSqrtPriceFromInput(c, liquidity, a, false).value, liquidity, a);
  }

  lemma MissesOutputZeroForOne(c: nat, t: nat, liquidity: nat, a: nat)
    requires 0 < t <= c && 0 < a < GetAmount1Delta(t, c, liquidity, false)
    ensures var r := GetNextSqrtPriceFromOutput(c, liquidity, a, true);
            r.Success? && t <= r.value <= c && a <= GetAmount1Delta(r.value, c, liquidity, false)
  {
    hide GetAmount1Delta, GetNextSqrtPriceFromAmount1RoundingDown, Pow2;
    Amount1DownGalois(t, c, liquidity, a);
    MulStrict(0, a, Q96);
    Positive(liquidity, c - t);
    MulMono(c - t, c - 1, liquidity);
    RemoveAmount1(c, liquidity, a, t);
    Amount1DownGalois(GetNextSqrtPriceFromOutput(c, liquidity, a, true).value, c, liquidity, a);
  }

  lemma MissesOutputOneForZero(c: nat, t: nat, liquidity: nat, a: nat)
    requires 0 < c <= t && 0 < a < GetAmount0Delta(c, t, liquidity, false)
    ensures var r := GetNextSqrtPriceFromOutput(c, liquidity, a, false);
            && (r.Success? <==> a * c < Q256)
            && (r.Success? ==> c <= r.value <= t && a <= GetAmount0Delta(c, r.value, liquidity, false))
  {
    hide Numerator, GetAmount0Delta, GetNextSqrtPriceFromAmount0RoundingUp, Pow2;
    var n := Numerator(liquidity);
    Amount0DownGalois(c, t, liquidity, a);
    MulStrict(0, a, c);
    MulStrict(0, a * c, t);
    SomeLiquidity(liquidity, n, t - c);
    CrossOutput(n, c, t, a);
    BelowReserve(n, a, c, t);
    RemoveAmount0(c, liquidity, a, t);
    var r := GetNextSqrtPriceFromOutput(c, liquidity, a, false);
    if r.Success? {
      CrossOutput(n, c, r.value, a);
      Amount0DownGalois(c, r.value, liquidity, a);
    }
  }

  lemma Positive(x: nat, y: int)
    requires 0 < x * y
    ensures 0 < x
  {
  }

  lemma SomeLiquidity(liquidity: nat, n: nat, d: int)
    requires n == Numerator(liquidity) && 0 < n * d
    ensures 0 < liquidity && 0 < n
  {
    Positive(n, d);
    Positive(liquidity, Q96);
  }

  // n (1/r - 1/c) compared with a, cleared of denominators in the two forms in use.
  lemma CrossInput(n: int, c: int, r: int, a: int)
    ensures n * (c - r) - a * r * c == n * c - r * (n + a * c)
  {
  }

  lemma CrossOutput(n: int, c: int, r: int, a: int)
    ensures n * (r - c) - a * c * r == r * (n - a * c) - n * c
  {
  }

  lemma BelowReserve(n: nat, a: nat, c: nat, t: nat)
    requires 0 < c <= t && a * c * t <= n * (t - c) && 0 < n
    ensures a * c < n
  {
    MulStrict(0, n, c);
    assert n * (t - c) == n * t - n * c;
    if n <= a * c {
      MulMono(n, a * c, t);
    }
  }

  // ----- the whole step -----

  // The next price lies between the current price and the target, and the lookup fails only for
  // a token0 output whose product with the price does not fit into 256 bits.
  lemma NextBetween(current: nat, target: nat, liquidity: nat, remaining: int, feePips: nat)
    requires 0 < current && 0 < target && feePips < MAX_FEE
    ensures var r := NextPrice(current, target, liquidity, remaining, feePips);
            && (r.Success? && target <= current ==> target <= r.value <= current)
            && (r.Success? && current < target ==> current <= r.value <= target)
            && (r.Failure? <==> (remaining < 0 && current < target && Q256 <= -remaining * current
                                && !Reaches(current, target, liquidity, remaining, feePips)))
  {
    if !Reaches(current, target, liquidity, remaining, feePips) {
      hide GetAmount0Delta, GetAmount1Delta, LessFee, GetNextSqrtPriceFromInput, GetNextSqrtPriceFromOutput;
      if remaining >= 0 && target <= current {
        MissesInputZeroForOne(current, target, liquidity, LessFee(remaining, feePips));
      } else if remaining >= 0 {
        MissesInputOneForZero(current, target, liquidity, LessFee(remaining, feePips));
      } else if target <= current {
        MissesOutputZeroForOne(current, target, liquidity, -remaining);
      } else {
        MissesOutputOneForZero(current, target, liquidity, -remaining);
      }
    }
  }

  // The step as a value: the two rounded deltas to the next price, an exact output capped at
  // what was asked for, and the fee.
  function ComputeStep(current: nat, target: nat, liquidity: nat, remaining: int, feePips: nat): Result<Step>
    requires 0 < current && 0 < target && feePips < MAX_FEE
  {
    var zeroForOne := current >= target;
    NextBetween(current, target, liquidity, remaining, feePips);
    match NextPrice(current, target, liquidity, remaining, feePips)
    case Failure(error) => Failure(error)
    case Success(next) =>
      var amountIn := InDelta(current, next, liquidity, zeroForOne);
      var out := OutDelta(current, next, liquidity, zeroForOne);
      Success(Step(next, amountIn,
                   if remaining < 0 && out > -remaining then -remaining else out,
                   if remaining >= 0 && next != target then remaining - amountIn
                   else MulDivRoundingUp(amountIn, feePips, MAX_FEE - feePips),
                   Reaches(current, target, liquidity, remaining, feePips)))
  }

  lemma FeeOnTop(a: nat, remaining: nat, f: nat)
    requires f < MAX_FEE && a <= LessFee(remaining, f)
    ensures a + MulDivRoundingUp(a, f, MAX_FEE - f) <= remaining
    ensures a * f <= (remaining - a) * (MAX_FEE - f)
  {
    var g := MAX_FEE - f;
    FloorGalois(remaining * g, MAX_FEE, a);
    MulStrict(0, g, 1);
    assert a * MAX_FEE == a * g + a * f;
    if remaining < a {
      MulMono(remaining + 1, a, g);
      MulMono(0, f, a);
      assert false;
    }
    MulDivGalois(a, f, g, remaining - a);
    assert (remaining - a) * g == remaining * g - a * g;
  }

  // The contract of a step in all four direction and mode cases.
  ghost predicate StepHolds(current: nat, target: nat, remaining: int, feePips: nat, s: Step) {
    // the price stays between current and target
    && (if target <= current then target <= s.sqrtRatioNext <= current else current <= s.sqrtRatioNext <= target)
    && (s.atTarget ==> s.sqrtRatioNext == target)
    // exact input never takes more than is left, and all of it when the target is missed
    && (remaining >= 0 ==>
          && s.amountIn + s.feeAmount <= remaining
          && (!s.atTarget ==> s.amountIn + s.feeAmount == remaining && s.sqrtRatioNext != target))
    // exact output never gives more than was asked, and exactly that when the target is missed
    && (remaining < 0 ==> s.amountOut <= -remaining && (!s.atTarget ==> s.amountOut == -remaining))
    // the fee covers its share of the input, and is no more than it must be unless it is the rest of
    // an input that missed
    && 0 <= s.feeAmount && s.amountIn * feePips <= s.feeAmount * (MAX_FEE - feePips)
    && (s.atTarget || remaining < 0 ==>
          s.feeAmount == 0 || (s.feeAmount - 1) * (MAX_FEE - feePips) < s.amountIn * feePips)
  }

  lemma StepContract(current: nat, target: nat, liquidity: nat, remaining: int, feePips: nat)
    requires 0 < current && 0 < target && feePips < MAX_FEE
    requires ComputeStep(current, target, liquidity, remaining, feePips).Success?
    ensures StepHolds(current, target, remaining, feePips,
                      ComputeStep(current, target, liquidity, remaining, feePips).value)
  {
    NextBetween(current, target, liquidity, remaining, feePips);
    var s := ComputeStep(current, target, liquidity, remaining, feePips).value;
    hide GetAmount0Delta, GetAmount1Delta, LessFee, GetNextSqrtPriceFromInput, GetNextSqrtPriceFromOutput,
      MulDivRoundingUp;
    var fee := MulDivRoundingUp(s.amountIn, feePips, MAX_FEE - feePips);
    MulDivGalois(s.amountIn, feePips, MAX_FEE - feePips, fee);
    if fee > 0 {
      MulDivGalois(s.amountIn, feePips, MAX_FEE - feePips, fee - 1);
    }
    if remaining >= 0 {
      if !s.atTarget {
        if target <= current {
          MissesInputZeroForOne(current, target, liquidity, LessFee(remaining, feePips));
        } else {
          MissesInputOneForZero(current, target, liquidity, LessFee(remaining, feePips));
        }
      }
      FeeOnTop(s.amountIn, remaining, feePips);
    } else if !s.atTarget {
      if target <= current {
        MissesOutputZeroForOne(current, target, liquidity, -remaining);
      } else {
        MissesOutputOneForZero(current, target, liquidity, -remaining);
      }
    }
  }

  // ----- how far a step goes -----

  // A price below n c / (n + a c) costs more than a.
  lemma CostsMore(c: nat, x: nat, liquidity: nat, a: nat, n: nat)
    requires 0 < x <= c && n == Numerator(liquidity) && x * (n + a * c) < n * c
    ensures a < GetAmount0Delta(x, c, liquidity, true)
  {
    Amount0UpGalois(x, c, liquidity, a);
    CrossInput(n, c, x, a);
    hide GetAmount0Delta;
  }

  // The exact formula for the next price does not wrap.
  predicate FitsWithInput(c: nat, liquidity: nat, a: nat) {
    a * c < Q256 && Numerator(liquidity) + a * c < Q256
  }

  // Where nothing wraps, the price an input leads to is the least one it pays for.
  lemma LeastPrice(c: nat, liquidity: nat, a: nat)
    requires 0 < c && 0 < liquidity && FitsWithInput(c, liquidity, a)
    ensures var r := GetNextSqrtPriceFromInput(c, liquidity, a, true); var n := Numerator(liquidity);
            r.Success? && (r.value - 1) * (n + a * c) < n * c
  {
    var n := Numerator(liquidity);
    hide Numerator, GetNextSqrtPriceFromAmount0RoundingUp;
    var r := GetNextSqrtPriceFromInput(c, liquidity, a, true);
    if a == 0 {
      NoAmount(c, liquidity);
      assert 0 < n by { SomeNumerator(liquidity); }
      MulStrict(0, n, 1);
      assert (c - 1) * (n + 0 * c) == n * c - n;
    } else {
      AddAmount0Least(c, liquidity, a, 0);
      if r.value > 0 {
        AddAmount0Least(c, liquidity, a, r.value - 1);
      } else {
        MulStrict(0, 1, n + a * c);
      }
    }
  }

  lemma FarthestInputOneForZero(c: nat, t: nat, liquidity: nat, a: nat)
    requires 0 < c <= t && a < GetAmount1Delta(c, t, liquidity, true)
    ensures var r := GetNextSqrtPriceFromInput(c, liquidity, a, false);
            r.Success? && a < GetAmount1Delta(c, r.value + 1, liquidity, true)
  {
    MissesInputOneForZero(c, t, liquidity, a);
    var r := GetNextSqrtPriceFromInput(c, liquidity, a, false).value;
    assert 0 < liquidity;
    hide GetAmount1Delta, GetNextSqrtPriceFromAmount1RoundingDown;
    AddAmount1(c, liquidity, a, r + 1);
    Amount1UpGalois(c, r + 1, liquidity, a);
  }

  lemma NearestOutputZeroForOne(c: nat, t: nat, liquidity: nat, a: nat)
    requires 0 < t <= c && 0 < a < GetAmount1Delta(t, c, liquidity, false)
    ensures var r := GetNextSqrtPriceFromOutput(c, liquidity, a, true);
            r.Success? && r.value < c && GetAmount1Delta(r.value + 1, c, liquidity, false) < a
  {
    MissesOutputZeroForOne(c, t, liquidity, a);
    var r := GetNextSqrtPriceFromOutput(c, liquidity, a, true).value;
    assert 0 < liquidity;
    Amount1DownGalois(c, c, liquidity, a);
    hide GetAmount1Delta, GetNextSqrtPriceFromAmount1RoundingDown;
    RemoveAmount1(c, liquidity, a, r + 1);
    Amount1DownGalois(r + 1, c, liquidity, a);
  }

  lemma NearestOutputOneForZero(c: nat, t: nat, liquidity: nat, a: nat)
    requires 0 < c <= t && 0 < a < GetAmount0Delta(c, t, liquidity, false)
    requires GetNextSqrtPriceFromOutput(c, liquidity, a, false).Success?
    ensures var r := GetNextSqrtPriceFromOutput(c, liquidity, a, false).value;
            c < r && GetAmount0Delta(c, r - 1, liquidity, false) < a
  {
    MissesOutputOneForZero(c, t, liquidity, a);
    var n := Numerator(liquidity);
    var r := GetNextSqrtPriceFromOutput(c, liquidity, a, false).value;
    assert 0 < liquidity;
    Amount0DownGalois(c, c, liquidity, a);
    MulStrict(0, a, c);
    MulStrict(0, a * c, c);
    hide Numerator, GetAmount0Delta, GetNextSqrtPriceFromAmount0RoundingUp;
    assert c < r;
    CrossOutput(n, c, r - 1, a);
    RemoveAmount0(c, liquidity, a, r - 1);
    Amount0DownGalois(c, r - 1, liquidity, a);
  }

  // The amounts of a step are those of its price move, rounded against the trader by less than a
  // unit: the input is the least integer that pays for the move, the output the greatest it releases,
  // or what was asked for if that is less.
  lemma AmountsAreTight(current: nat, target: nat, liquidity: nat, remaining: int, feePips: nat, k: nat)
    requires 0 < current && 0 < target && feePips < MAX_FEE
    requires ComputeStep(current, target, liquidity, remaining, feePips).Success?
    ensures
      var s := ComputeStep(current, target, liquidity, remaining, feePips).value;
      var n, next := Numerator(liquidity), s.sqrtRatioNext;
      var capped := remaining < 0 && k > -remaining;
      && (target <= current ==>
            && next <= current
            && (s.amountIn <= k <==> n * (current - next) <= k * next * current)
            && (k <= s.amountOut <==> !capped && k * Q96 <= liquidity * (current - next)))
      && (current < target ==>
            && current <= next
            && (s.amountIn <= k <==> liquidity * (next - current) <= k * Q96)
            && (k <= s.amountOut <==> !capped && k * current * next <= n * (next - current)))
  {
    NextBetween(current, target, liquidity, remaining, feePips);
    var next := ComputeStep(current, target, liquidity, remaining, feePips).value.sqrtRatioNext;
    if target <= current {
      Amount0UpGalois(next, current, liquidity, k);
      Amount1DownGalois(next, current, liquidity, k);
    } else {
      Amount1UpGalois(current, next, liquidity, k);
      Amount0DownGalois(current, next, liquidity, k);
    }
    hide GetAmount0Delta, GetAmount1Delta, Numerator, NextPrice, LessFee, MulDivRoundingUp, Reaches;
  }

  // The price of a step that misses its target.
  lemma MissedPrice(current: nat, target: nat, liquidity: nat, remaining: int, feePips: nat)
    requires 0 < current && 0 < target && feePips < MAX_FEE
    requires ComputeStep(current, target, liquidity, remaining, feePips).Success?
    requires !Reaches(current, target, liquidity, remaining, feePips)
    ensures
      var r := if remaining >= 0 then GetNextSqrtPriceFromInput(current, liquidity, LessFee(remaining, feePips), current >= target)
               else GetNextSqrtPriceFromOutput(current, liquidity, -remaining, current >= target);
      r.Success? && 0 < r.value && ComputeStep(current, target, liquidity, remaining, feePips).value.sqrtRatioNext == r.value
  {
    NextBetween(current, target, liquidity, remaining, feePips);
    hide GetNextSqrtPriceFromInput, GetNextSqrtPriceFromOutput, InDelta, OutDelta, LessFee, MulDivRoundingUp, Reaches;
  }

  // A step that misses its target goes exactly as far as its amount pays for: one price unit further
  // would cost more than the input less fee. For a token0 input this needs the product and the sum to
  // fit into 256 bits.
  lemma InputGoesAsFarAsPaid(current: nat, target: nat, liquidity: nat, remaining: nat, feePips: nat)
    requires 0 < current && 0 < target && feePips < MAX_FEE
    requires ComputeStep(current, target, liquidity, remaining, feePips).Success?
    requires !Reaches(current, target, liquidity, remaining, feePips)
    ensures
      var next := ComputeStep(current, target, liquidity, remaining, feePips).value.sqrtRatioNext;
      var a := LessFee(remaining, feePips);
      && 0 < next && InDelta(current, next, liquidity, current >= target) <= a
      && (current < target ==> a < InDelta(current, next + 1, liquidity, false))
      && (target <= current && FitsWithInput(current, liquidity, a) ==>
            1 < next && a < InDelta(current, next - 1, liquidity, true))
  {
    MissedPrice(current, target, liquidity, remaining, feePips);
    hide GetAmount0Delta, GetAmount1Delta, LessFee, GetNextSqrtPriceFromInput, Numerator, ComputeStep;
    var a := LessFee(remaining, feePips);
    if target <= current {
      MissesInputZeroForOne(current, target, liquidity, a);
      if FitsWithInput(current, liquidity, a) {
        LeastPrice(current, liquidity, a);
        var next := GetNextSqrtPriceFromInput(current, liquidity, a, true).value;
        CostsMore(current, next - 1, liquidity, a, Numerator(liquidity));
      }
    } else {
      MissesInputOneForZero(current, target, liquidity, a);
      FarthestInputOneForZero(current, target, liquidity, a);
    }
  }

  // And no farther than it must: one price unit less would release less than was asked for.
  lemma OutputGoesNoFarther(current: nat, target: nat, liquidity: nat, remaining: int, feePips: nat)
    requires 0 < current && 0 < target && feePips < MAX_FEE && remaining < 0
    requires ComputeStep(current, target, liquidity, remaining, feePips).Success?
    requires !Reaches(current, target, liquidity, remaining, feePips)
    ensures
      var next := ComputeStep(current, target, liquidity, remaining, feePips).value.sqrtRatioNext;
      && 0 < next && -remaining <= OutDelta(current, next, liquidity, current >= target)
      && (target <= current ==> OutDelta(current, next + 1, liquidity, true) < -remaining)
      && (current < target ==> 1 < next && OutDelta(current, next - 1, liquidity, false) < -remaining)
  {
    MissedPrice(current, target, liquidity, remaining, feePips);
    hide GetAmount0Delta, GetAmount1Delta, GetNextSqrtPriceFromOutput, ComputeStep;
    if target <= current {
      MissesOutputZeroForOne(current, target, liquidity, -remaining);
      NearestOutputZeroForOne(current, target, liquidity, -remaining);
    } else {
      MissesOutputOneForZero(current, target, liquidity, -remaining);
      NearestOutputOneForZero(current, target, liquidity, -remaining);
    }
  }

  // A step that starts on its target is idle.
  lemma IdleStep(price: nat, liquidity: nat, remaining: int, feePips: nat)
    requires 0 < price && feePips < MAX_FEE
    ensures ComputeStep(price, price, liquidity, remaining, feePips) == Success(Step(price, 0, 0, 0, true))
  {
    FloorGalois(remaining * (MAX_FEE - feePips), MAX_FEE, 0);
    if remaining >= 0 {
      MulMono(0, remaining, MAX_FEE - feePips);
    }
    Amount0UpGalois(price, price, liquidity, 0);
    Amount1DownGalois(price, price, liquidity, 1);
    assert GetAmount0Delta(price, price, liquidity, true) == 0;
    assert GetAmount1Delta(price, price, liquidity, false) == 0;
    hide GetAmount0Delta, GetAmount1Delta;
    MulDivGalois(0, feePips, MAX_FEE - feePips, 0);
  }

  // The computation step by step, on a record that is filled and overwritten.
  method ComputeSwapStep(sqrtRatioCurrent: nat, sqrtRatioTarget: nat, liquidity: nat, amountRemaining: int, feePips: nat)
    returns (r: Result<Step>)
    requires 0 < sqrtRatioCurrent && 0 < sqrtRatioTarget && feePips < MAX_FEE
    ensures r == ComputeStep(sqrtRatioCurrent, sqrtRatioTarget, liquidity, amountRemaining, feePips)
  {
    var c, t := sqrtRatioCurrent, sqrtRatioTarget;
    NextBetween(c, t, liquidity, amountRemaining, feePips);
    hide GetAmount0Delta, GetAmount1Delta, LessFee, MulDivRoundingUp;
    var zeroForOne := c >= t;
    var exactIn := amountRemaining >= 0;
    var amountIn, amountOut := 0, 0;
    var reached: bool;
    var next: Result<nat>;
    if exactIn {
      var amountRemainingLessFee := LessFee(amountRemaining, feePips);
      amountIn := if zeroForOne then GetAmount0Delta(t, c, liquidity, true) else GetAmount1Delta(c, t, liquidity, true);
      reached := amountRemainingLessFee >= amountIn;
      next := if reached then Success(t)
      else GetNextSqrtPriceFromInput(c, liquidity, amountRemainingLessFee, zeroForOne);
    } else {
      amountOut := if zeroForOne then GetAmount1Delta(t, c, liquidity, false) else GetAmount0Delta(c, t, liquidity, false);
      reached := -amountRemaining >= amountOut;
      next := if reached then Success(t)
      else GetNextSqrtPriceFromOutput(c, liquidity, -amountRemaining, zeroForOne);
    }
    if next.Failure? {
      return Failure(next.error);
    }
    var price := next.value;
    var max := t == price;
    if zeroForOne {
      amountIn := if max && exactIn then amountIn else GetAmount0Delta(price, c, liquidity, true);
      amountOut := if max && !exactIn then amountOut else GetAmount1Delta(price, c, liquidity, false);
    } else {
      amountIn := if max && exactIn then amountIn else GetAmount1Delta(c, price, liquidity, true);
      amountOut := if max && !exactIn then amountOut else GetAmount0Delta(c, price, liquidity, false);
    }
    if !exactIn && amountOut > -amountRemaining {
      amountOut := -amountRemaining;
    }
    var feeAmount: int;
    if exactIn && price != t {
      feeAmount := amountRemaining - amountIn;
    } else {
      feeAmount := MulDivRoundingUp(amountIn, feePips, MAX_FEE - feePips);
    }
    r := Success(Step(price, amountIn, amountOut, feeAmount, reached));
  }
}
