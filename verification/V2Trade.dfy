// Exact output quotes over volatile Solidly pools, and trades along routes of any length.
module V2Trade {
  import opened Arith
  import opened Results
  import opened V2Pool

  // Input before the fee: what the constant product asks for, rounded down.
  function BeforeFee(out: nat, reserveIn: nat, reserveOut: nat): (r: nat)
    requires out < reserveOut
  {
    FloorGalois(out * reserveIn, reserveOut - out, 0);
    out * reserveIn / (reserveOut - out)
  }

  function GrossUp(beforeFee: nat, fee: nat): (r: nat)
    requires fee < FEE_DENOMINATOR
  {
    FloorGalois(beforeFee * FEE_DENOMINATOR, FEE_DENOMINATOR - fee, 0);
    beforeFee * FEE_DENOMINATOR / (FEE_DENOMINATOR - fee)
  }

  function GetInputAmount(p: Pool, amount: nat, tokenOut: Token): Result<(nat, Pool)>
    requires Valid(p)
  {
    if !Involves(p, tokenOut) then Failure("TOKEN")
    else if p.stable then Failure("STABLE_EXACT_OUTPUT")
    else if p.reserve0 == 0 || p.reserve1 == 0 then Failure("INSUFFICIENT_RESERVES")
    else
      var tokenIn := OtherToken(p, tokenOut);
      if OutputReserve(p, tokenIn) <= amount then Failure("INSUFFICIENT_RESERVES")
      else
        var amountIn := GrossUp(BeforeFee(amount, InputReserve(p, tokenIn), OutputReserve(p, tokenIn)), p.fee) + 1;
        Success((amountIn, Moved(p, tokenIn, AfterFee(amountIn, p.fee), amount)))
  }

  function Product(p: Pool): nat {
    p.reserve0 * p.reserve1
  }

  // ----- fees -----

  lemma AfterFeeGalois(x: nat, fee: nat, k: nat)
    requires fee < FEE_DENOMINATOR
    ensures AfterFee(x, fee) <= k <==> x * (FEE_DENOMINATOR - fee) <= k * FEE_DENOMINATOR
  {
    FloorGalois(x * fee, FEE_DENOMINATOR, x - k);
    assert x * (FEE_DENOMINATOR - fee) == x * FEE_DENOMINATOR - x * fee;
  }

  lemma AfterFeeMono(x: nat, y: nat, fee: nat)
    requires x <= y && fee < FEE_DENOMINATOR
    ensures AfterFee(x, fee) <= AfterFee(y, fee)
  {
    AfterFeeGalois(y, fee, AfterFee(y, fee));
    AfterFeeGalois(x, fee, AfterFee(y, fee));
    MulMono(x, y, FEE_DENOMINATOR - fee);
  }

  // Grossing up undoes the fee exactly, and one unit more crosses to the next amount.
  lemma GrossUpInverts(before: nat, fee: nat)
    requires fee < FEE_DENOMINATOR
    ensures AfterFee(GrossUp(before, fee), fee) == before < AfterFee(GrossUp(before, fee) + 1, fee)
  {
    var g := FEE_DENOMINATOR - fee;
    var q := GrossUp(before, fee);
    DivBounds(before * FEE_DENOMINATOR, g);
    AfterFeeGalois(q, fee, before);
    assert (q + 1) * g == q * g + g;
    AfterFeeGalois(q + 1, fee, before);
    if AfterFee(q, fee) < before {
      AfterFeeGalois(q, fee, before - 1);
      assert false;
    }
  }

  // ----- the constant product -----

  // A payment of a buys out exactly when a * (reserveOut - out) covers out * reserveIn.
  lemma BuysGalois(a: nat, reserveIn: nat, reserveOut: nat, out: nat)
    requires 0 < reserveIn && out <= reserveOut
    ensures out <= VolatileAmountOut(a, reserveIn, reserveOut) <==> out * reserveIn <= a * (reserveOut - out)
  {
    FloorGalois(a * reserveOut, reserveIn + a, out);
    assert out * (reserveIn + a) == out * reserveIn + a * out;
    assert a * (reserveOut - out) == a * reserveOut - a * out;
  }

  lemma VolatileBelowReserve(a: nat, reserveIn: nat, reserveOut: nat)
    requires 0 < reserveIn
    ensures 0 <= VolatileAmountOut(a, reserveIn, reserveOut) <= reserveOut
    ensures 0 < reserveOut ==> VolatileAmountOut(a, reserveIn, reserveOut) < reserveOut
  {
    FloorGalois(a * reserveOut, reserveIn + a, 0);
    FloorGalois(a * reserveOut, reserveIn + a, reserveOut);
    FloorGalois(a * reserveOut, reserveIn + a, reserveOut + 1);
    assert reserveOut * (reserveIn + a) == reserveOut * reserveIn + a * reserveOut;
    MulMono(0, reserveOut, reserveIn);
    if 0 < reserveOut {
      MulStrict(0, reserveOut, reserveIn);
    }
  }

  lemma BeforeFeeGalois(out: nat, reserveIn: nat, reserveOut: nat, k: nat)
    requires out < reserveOut
    ensures k <= BeforeFee(out, reserveIn, reserveOut) <==> k * (reserveOut - out) <= out * reserveIn
  {
    FloorGalois(out * reserveIn, reserveOut - out, k);
  }

  // ----- one hop -----

  // The computed input buys at least the requested output, and so does any larger one; only a request
  // for nothing, which is priced at one unit, can fail to buy anything. The pool that records the trade
  // ends up with a strictly larger product.
  lemma ExactOutputSuffices(p: Pool, out: nat, tokenOut: Token, more: nat)
    requires Valid(p) && GetInputAmount(p, out, tokenOut).Success?
    requires GetInputAmount(p, out, tokenOut).value.0 <= more
    ensures var forward := GetOutputAmount(p, more, OtherToken(p, tokenOut));
            && (0 < out ==> forward.Success?)
            && (forward.Failure? ==> forward.error == "INSUFFICIENT_INPUT_AMOUNT")
            && (forward.Success? ==> out <= forward.value.0)
    ensures Product(p) < Product(GetInputAmount(p, out, tokenOut).value.1)
    ensures 0 < GetInputAmount(p, out, tokenOut).value.0
    ensures out == 0 ==> GetInputAmount(p, out, tokenOut).value.0 == 1
  {
    var tokenIn := OtherToken(p, tokenOut);
    var rIn, rOut := InputReserve(p, tokenIn), OutputReserve(p, tokenIn);
    var before := BeforeFee(out, rIn, rOut);
    var (amountIn, next) := GetInputAmount(p, out, tokenOut).value;
    var a, b := AfterFee(amountIn, p.fee), AfterFee(more, p.fee);
    GrossUpInverts(before, p.fee);
    AfterFeeMono(amountIn, more, p.fee);
    BeforeFeeGalois(out, rIn, rOut, a);
    if out == 0 { NothingCostsNothing(rIn, rOut, p.fee); }
    hide GrossUp, BeforeFee, AfterFee;
    assert out * rIn < a * (rOut - out);
    MulMono(a, b, rOut - out);
    BuysGalois(b, rIn, rOut, out);
    VolatileBelowReserve(b, rIn, rOut);
    ProductGrows(rIn, rOut, a, out);
    hide VolatileAmountOut;
    assert Product(next) == (rIn + a) * (rOut - out) by { Commute(rIn + a, rOut - out); }
    assert Product(p) == rIn * rOut by { Commute(rIn, rOut); }
  }

  lemma NothingCostsNothing(rIn: nat, rOut: nat, fee: nat)
    requires 0 < rOut && fee < FEE_DENOMINATOR
    ensures BeforeFee(0, rIn, rOut) == 0 && GrossUp(0, fee) == 0
  {
    DivUnique(0, rOut, 0);
    DivUnique(0, FEE_DENOMINATOR - fee, 0);
  }

  lemma Commute(a: int, b: int)
    ensures a * b == b * a
  {
  }

  lemma ProductGrows(rIn: nat, rOut: nat, a: nat, out: nat)
    requires out <= rOut && out * rIn < a * (rOut - out)
    ensures rIn * rOut < (rIn + a) * (rOut - out)
  {
    assert (rIn + a) * (rOut - out) == rIn * rOut - out * rIn + a * (rOut - out);
  }

  // Exact input swaps never shrink the product either.
  lemma ExactInputKeepsProduct(p: Pool, amount: nat, tokenIn: Token)
    requires Valid(p) && !p.stable && GetOutputAmount(p, amount, tokenIn).Success?
    ensures Product(p) <= Product(GetOutputAmount(p, amount, tokenIn).value.1)
  {
    var (out, next) := GetOutputAmount(p, amount, tokenIn).value;
    var rIn, rOut := InputReserve(p, tokenIn), OutputReserve(p, tokenIn);
    var a := AfterFee(amount, p.fee);
    hide AfterFee;
    BuysGalois(a, rIn, rOut, out);
    hide VolatileAmountOut;
    assert (rIn + a) * (rOut - out) == rIn * rOut - out * rIn + a * (rOut - out);
    Commute(rIn + a, rOut - out);
    Commute(rIn, rOut);
  }

  // When an exact output is priced: for a token of a volatile pool with both reserves, and less than the
  // reserve of that token; otherwise the first of these that fails names the error.
  lemma InputQuoteFails(p: Pool, out: nat, tokenOut: Token)
    requires Valid(p)
    ensures
      var r := GetInputAmount(p, out, tokenOut);
      var reserve := if tokenOut == p.token0 then p.reserve0 else p.reserve1;
      if tokenOut != p.token0 && tokenOut != p.token1 then r == Failure("TOKEN")
      else if p.stable then r == Failure("STABLE_EXACT_OUTPUT")
      else if p.reserve0 == 0 || p.reserve1 == 0 || reserve <= out then r == Failure("INSUFFICIENT_RESERVES")
      else r.Success?
  {
    hide GrossUp, BeforeFee, AfterFee;
  }

  // One unit less input still buys the output if and only if the reserve division was exact and the
  // output not nothing.
  lemma OneUnitLess(p: Pool, out: nat, tokenOut: Token)
    requires Valid(p) && GetInputAmount(p, out, tokenOut).Success?
    ensures var amountIn := GetInputAmount(p, out, tokenOut).value.0;
            var tokenIn := OtherToken(p, tokenOut);
            var forward := GetOutputAmount(p, amountIn - 1, tokenIn);
            (forward.Success? && out <= forward.value.0)
            <==> 0 < out && (out * InputReserve(p, tokenIn)) % (OutputReserve(p, tokenIn) - out) == 0
  {
    var tokenIn := OtherToken(p, tokenOut);
    var rIn, rOut := InputReserve(p, tokenIn), OutputReserve(p, tokenIn);
    var before := BeforeFee(out, rIn, rOut);
    var amountIn := GetInputAmount(p, out, tokenOut).value.0;
    GrossUpInverts(before, p.fee);
    assert AfterFee(amountIn - 1, p.fee) == before;
    if out == 0 {
      NothingCostsNothing(rIn, rOut, p.fee);
      NothingBuysNothing(rIn, rOut);
    }
    hide GrossUp, AfterFee, VolatileAmountOut, BeforeFee;
    BuysGalois(before, rIn, rOut, out);
    VolatileBelowReserve(before, rIn, rOut);
    ExactDivision(out, rIn, rOut);
  }

  lemma NothingBuysNothing(rIn: nat, rOut: nat)
    requires 0 < rIn
    ensures VolatileAmountOut(0, rIn, rOut) == 0
  {
    DivUnique(0, rIn, 0);
  }

  lemma ExactDivision(out: nat, rIn: nat, rOut: nat)
    requires out < rOut
    ensures out * rIn <= BeforeFee(out, rIn, rOut) * (rOut - out) <==> (out * rIn) % (rOut - out) == 0
  {
    DivBounds(out * rIn, rOut - out);
  }

  // Asking back for the output of an exact input costs at most ceil(10000 / (10000 - fee)) more
  // than that input: two units more for every fee up to one half.
  lemma ExactInputThenOutput(p: Pool, amount: nat, tokenIn: Token)
    requires Valid(p) && !p.stable && GetOutputAmount(p, amount, tokenIn).Success?
    ensures var out := GetOutputAmount(p, amount, tokenIn).value.0;
            var back := GetInputAmount(p, out, OtherToken(p, tokenIn));
            && back.Success?
            && (back.value.0 - 1 - amount) * (FEE_DENOMINATOR - p.fee) < FEE_DENOMINATOR
            && (p.fee <= 5000 ==> back.value.0 <= amount + 2)
  {
    var out := GetOutputAmount(p, amount, tokenIn).value.0;
    var rIn, rOut := InputReserve(p, tokenIn), OutputReserve(p, tokenIn);
    var a := AfterFee(amount, p.fee);
    hide GrossUp, AfterFee, VolatileAmountOut, BeforeFee;
    BuysGalois(a, rIn, rOut, out);
    BeforeFeeAtMost(out, rIn, rOut, a);
    GrossUpBounded(amount, p.fee, BeforeFee(out, rIn, rOut));
  }

  lemma BeforeFeeAtMost(out: nat, rIn: nat, rOut: nat, a: nat)
    requires out < rOut && out * rIn <= a * (rOut - out)
    ensures BeforeFee(out, rIn, rOut) <= a
  {
    var before := BeforeFee(out, rIn, rOut);
    BeforeFeeGalois(out, rIn, rOut, before);
    hide BeforeFee;
    MulCancel(before, a, rOut - out);
  }

  lemma GrossUpBounded(amount: nat, fee: nat, before: nat)
    requires fee < FEE_DENOMINATOR && before <= AfterFee(amount, fee)
    ensures (GrossUp(before, fee) - amount) * (FEE_DENOMINATOR - fee) < FEE_DENOMINATOR
    ensures fee <= 5000 ==> GrossUp(before, fee) <= amount + 1
  {
    var g, a, q := FEE_DENOMINATOR - fee, AfterFee(amount, fee), GrossUp(before, fee);
    DivBounds(before * FEE_DENOMINATOR, g);
    if 0 < a {
      AfterFeeGalois(amount, fee, a - 1);
    }
    hide AfterFee;
    MulMono(0, amount, g);
    assert (q - amount) * g == q * g - amount * g;
    if 2 <= q - amount {
      MulMono(2, q - amount, g);
    }
  }

  // ----- routes -----

  // What the route constructor establishes: the path threads through the pools. That the last pool
  // involves the output is checked too, but not that the path ends there.
  predicate IsRoute(pools: seq<Pool>, path: seq<Token>) {
    && |pools| > 0 && |path| == |pools| + 1
    && forall i :: 0 <= i < |pools| ==> Valid(pools[i]) && Involves(pools[i], path[i])
                                        && path[i + 1] == OtherToken(pools[i], path[i])
  }

  // The amount of the i-th token of the path and of all later ones, given the i-th.
  function ForwardFrom(pools: seq<Pool>, path: seq<Token>, i: nat, amount: nat): Result<seq<nat>>
    requires IsRoute(pools, path) && i <= |pools|
    decreases |pools| - i
  {
    if i == |pools| then Success([amount])
    else match GetOutputAmount(pools[i], amount, path[i])
      case Failure(error) => Failure(error)
      case Success(quote) =>
        match ForwardFrom(pools, path, i + 1, quote.0)
        case Failure(error) => Failure(error)
        case Success(rest) => Success([amount] + rest)
  }

  // The amounts before and after the first i pools, given the last of them and its token: every pool
  // is asked in the token its successor was quoted in.
  function BackwardTo(pools: seq<Pool>, i: nat, tokenOut: Token, amount: nat): Result<seq<nat>>
    requires i <= |pools| && forall k :: 0 <= k < |pools| ==> Valid(pools[k])
    decreases i
  {
    if i == 0 then Success([amount])
    else match GetInputAmount(pools[i - 1], amount, tokenOut)
      case Failure(error) => Failure(error)
      case Success(quote) =>
        match BackwardTo(pools, i - 1, OtherToken(pools[i - 1], tokenOut), quote.0)
        case Failure(error) => Failure(error)
        case Success(rest) => Success(rest + [amount])
  }

  lemma {:induction false} ForwardLength(pools: seq<Pool>, path: seq<Token>, i: nat, amount: nat)
    requires IsRoute(pools, path) && i <= |pools| && ForwardFrom(pools, path, i, amount).Success?
    ensures |ForwardFrom(pools, path, i, amount).value| == |pools| + 1 - i
    ensures ForwardFrom(pools, path, i, amount).value[0] == amount
    decreases |pools| - i
  {
    if i < |pools| {
      ForwardLength(pools, path, i + 1, GetOutputAmount(pools[i], amount, path[i]).value.0);
    }
  }

  // An exact input trade fills its token amounts front to back.
  method ExactInTrade(pools: seq<Pool>, path: seq<Token>, amount: nat) returns (r: Result<seq<nat>>)
    requires IsRoute(pools, path)
    ensures r == ForwardFrom(pools, path, 0, amount)
  {
    hide GetOutputAmount;
    var tokenAmounts := new nat[|path|];
    tokenAmounts[0] := amount;
    assert tokenAmounts[..0] == [];
    NothingAdded(ForwardFrom(pools, path, 0, amount));
    for i := 0 to |path| - 1
      invariant ForwardFrom(pools, path, 0, amount) == Prepended(tokenAmounts[..i], ForwardFrom(pools, path, i, tokenAmounts[i]))
    {
      var quote := GetOutputAmount(pools[i], tokenAmounts[i], path[i]);
      if quote.Failure? {
        return Failure(quote.error);
      }
      ghost var before := tokenAmounts[..i];
      ghost var here := tokenAmounts[i];
      tokenAmounts[i + 1] := quote.value.0;
      assert tokenAmounts[..i + 1] == before + [here];
      PrependedTwice(before, here, ForwardFrom(pools, path, i + 1, quote.value.0));
    }
    assert tokenAmounts[..] == tokenAmounts[..|path| - 1] + [tokenAmounts[|path| - 1]];
    r := Success(tokenAmounts[..]);
  }

  function Prepended(front: seq<nat>, rest: Result<seq<nat>>): Result<seq<nat>> {
    if rest.Success? then Success(front + rest.value) else rest
  }

  function Appended(rest: Result<seq<nat>>, back: seq<nat>): Result<seq<nat>> {
    if rest.Success? then Success(rest.value + back) else rest
  }

  lemma NothingAdded(rest: Result<seq<nat>>)
    ensures Prepended([], rest) == rest == Appended(rest, [])
  {
    if rest.Success? {
      assert [] + rest.value == rest.value == rest.value + [];
    }
  }

  lemma PrependedTwice(front: seq<nat>, x: nat, rest: Result<seq<nat>>)
    ensures Prepended(front, Prepended([x], rest)) == Prepended(front + [x], rest)
  {
    if rest.Success? {
      assert front + ([x] + rest.value) == (front + [x]) + rest.value;
    }
  }

  lemma AppendedTwice(rest: Result<seq<nat>>, x: nat, back: seq<nat>)
    ensures Appended(Appended(rest, [x]), back) == Appended(rest, [x] + back)
  {
    if rest.Success? {
      assert (rest.value + [x]) + back == rest.value + ([x] + back);
    }
  }

  // An exact output trade fills them back to front, from the output on.
  method ExactOutTrade(pools: seq<Pool>, path: seq<Token>, output: Token, amount: nat) returns (r: Result<seq<nat>>)
    requires IsRoute(pools, path)
    ensures r == BackwardTo(pools, |pools|, output, amount)
  {
    hide GetInputAmount;
    var tokenAmounts := new nat[|path|];
    tokenAmounts[|path| - 1] := amount;
    var token := output;
    var i := |path| - 1;
    assert tokenAmounts[i + 1..] == [];
    NothingAdded(BackwardTo(pools, |pools|, output, amount));
    while i > 0
      invariant 0 <= i < |path|
      invariant BackwardTo(pools, |pools|, output, amount) == Appended(BackwardTo(pools, i, token, tokenAmounts[i]), tokenAmounts[i + 1..])
    {
      var quote := GetInputAmount(pools[i - 1], tokenAmounts[i], token);
      if quote.Failure? {
        return Failure(quote.error);
      }
      ghost var back := tokenAmounts[i + 1..];
      ghost var here := tokenAmounts[i];
      token := OtherToken(pools[i - 1], token);
      tokenAmounts[i - 1] := quote.value.0;
      assert tokenAmounts[i..] == [here] + back;
      AppendedTwice(BackwardTo(pools, i - 1, token, quote.value.0), here, back);
      i := i - 1;
    }
    assert tokenAmounts[..] == [tokenAmounts[0]] + tokenAmounts[1..];
    r := Success(tokenAmounts[..]);
  }

  // The backward loop of the quote provider: it keeps only the amount, skips routes with a stable
  // pool beforehand, and gives no quote when a hop fails.
  method QuoteExactOut(pools: seq<Pool>, path: seq<Token>, output: Token, amount: nat) returns (r: Option<nat>)
    requires IsRoute(pools, path)
    ensures r.Some? ==> BackwardTo(pools, |pools|, output, amount).Success?
                        && r.value == BackwardTo(pools, |pools|, output, amount).value[0]
    ensures r.None? <==> (exists i :: 0 <= i < |pools| && pools[i].stable) || BackwardTo(pools, |pools|, output, amount).Failure?
  {
    if exists i :: 0 <= i < |pools| && pools[i].stable {
      return None;
    }
    hide GetInputAmount;
    var current, token := amount, output;
    var i := |pools| - 1;
    ghost var back: seq<nat> := [];
    NothingAdded(BackwardTo(pools, |pools|, output, amount));
    while i >= 0
      invariant -1 <= i < |pools|
      invariant BackwardTo(pools, |pools|, output, amount) == Appended(BackwardTo(pools, i + 1, token, current), back)
    {
      var quote := GetInputAmount(pools[i], current, token);
      if quote.Failure? {
        return None;
      }
      token := OtherToken(pools[i], token);
      AppendedTwice(BackwardTo(pools, i, token, quote.value.0), current, back);
      back := [current] + back;
      current := quote.value.0;
      i := i - 1;
    }
    r := Some(current);
  }

  // ----- exact output along a route, fed forward -----

  // Amount j is the input the pool quotes for amount j + 1.
  predicate Linked(p: Pool, tokenOut: Token, amounts: seq<nat>, j: nat)
    requires Valid(p) && j + 1 < |amounts|
  {
    var quote := GetInputAmount(p, amounts[j + 1], tokenOut);
    quote.Success? && amounts[j] == quote.value.0
  }

  // Whatever is fed into the front of the priced part of a route, as long as it is no less than
  // the computed input, every token of the path arrives in at least the computed amount; only where
  // nothing was asked for can the last pool find its input too small.
  lemma {:induction false} ForwardCovers(pools: seq<Pool>, path: seq<Token>, i: nat, amounts: seq<nat>, amount: nat)
    requires IsRoute(pools, path) && i <= |pools| && |amounts| == |path|
    requires forall j :: 0 <= j < |pools| ==> Linked(pools[j], path[j + 1], amounts, j)
    requires amounts[i] <= amount
    ensures var forward := ForwardFrom(pools, path, i, amount);
            && (0 < amounts[|pools|] ==> forward.Success?)
            && (forward.Failure? ==> forward.error == "INSUFFICIENT_INPUT_AMOUNT")
            && (forward.Success? ==>
                 |forward.value| == |path| - i && forall j :: i <= j < |path| ==> amounts[j] <= forward.value[j - i])
    decreases |pools| - i
  {
    if i < |pools| {
      assert Linked(pools[i], path[i + 1], amounts, i);
      ExactOutputSuffices(pools[i], amounts[i + 1], path[i + 1], amount);
      if i + 1 < |pools| {
        assert Linked(pools[i + 1], path[i + 2], amounts, i + 1);
        ExactOutputSuffices(pools[i + 1], amounts[i + 2], path[i + 2], amounts[i + 1]);
      }
      assert OtherToken(pools[i], path[i + 1]) == path[i];
      hide GetInputAmount, GetOutputAmount;
      var quote := GetOutputAmount(pools[i], amount, path[i]);
      if quote.Success? {
        ForwardCovers(pools, path, i + 1, amounts, quote.value.0);
        var rest := ForwardFrom(pools, path, i + 1, quote.value.0);
        if rest.Success? {
          forall j | i <= j < |path| ensures amounts[j] <= ([amount] + rest.value)[j - i] {
            if i < j {
              assert ([amount] + rest.value)[j - i] == rest.value[j - (i + 1)];
            }
          }
        }
      }
    }
  }

  // Each amount of a backward pricing is the input its pool quoted for the next one.
  lemma {:induction false} BackwardLinks(pools: seq<Pool>, path: seq<Token>, i: nat, amount: nat)
    requires IsRoute(pools, path) && i <= |pools| && BackwardTo(pools, i, path[i], amount).Success?
    ensures var amounts := BackwardTo(pools, i, path[i], amount).value;
            && |amounts| == i + 1 && amounts[i] == amount
            && forall j :: 0 <= j < i ==> Linked(pools[j], path[j + 1], amounts, j)
    decreases i
  {
    if i > 0 {
      var quote := GetInputAmount(pools[i - 1], amount, path[i]).value.0;
      assert OtherToken(pools[i - 1], path[i]) == path[i - 1];
      hide GetInputAmount;
      BackwardLinks(pools, path, i - 1, quote);
      var rest := BackwardTo(pools, i - 1, path[i - 1], quote).value;
      var amounts := rest + [amount];
      assert BackwardTo(pools, i, path[i], amount).value == amounts;
      forall j | 0 <= j < i ensures Linked(pools[j], path[j + 1], amounts, j) {
        if j < i - 1 {
          assert Linked(pools[j], path[j + 1], rest, j);
        }
      }
    }
  }

  // For volatile routes of any length that end at their output: feeding the computed input forward
  // delivers at least the requested output, every hop on the way delivers at least what the pricing
  // assumed, and each pool's product strictly grows in the priced trade.
  lemma ExactOutputRoundTrip(pools: seq<Pool>, path: seq<Token>, output: Token, amount: nat)
    requires IsRoute(pools, path) && output == path[|pools|] && BackwardTo(pools, |pools|, output, amount).Success?
    ensures var amounts := BackwardTo(pools, |pools|, output, amount).value;
            |amounts| == |path|
    ensures var amounts := BackwardTo(pools, |pools|, output, amount).value;
            var forward := ForwardFrom(pools, path, 0, amounts[0]);
            && (0 < amount ==> forward.Success?)
            && (forward.Failure? ==> forward.error == "INSUFFICIENT_INPUT_AMOUNT")
            && (forward.Success? ==>
                 && |forward.value| == |path| && amount <= forward.value[|pools|]
                 && forall j :: 0 <= j < |path| ==> amounts[j] <= forward.value[j])
    ensures var amounts := BackwardTo(pools, |pools|, output, amount).value;
            forall j :: 0 <= j < |pools| ==>
              var quote := GetInputAmount(pools[j], amounts[j + 1], path[j + 1]);
              quote.Success? && Product(pools[j]) < Product(quote.value.1)
  {
    var amounts := BackwardTo(pools, |pools|, output, amount).value;
    BackwardLinks(pools, path, |pools|, amount);
    ForwardCovers(pools, path, 0, amounts, amounts[0]);
    forall j | 0 <= j < |pools|
      ensures var quote := GetInputAmount(pools[j], amounts[j + 1], path[j + 1]);
              quote.Success? && Product(pools[j]) < Product(quote.value.1)
    {
      assert Linked(pools[j], path[j + 1], amounts, j);
      ExactOutputSuffices(pools[j], amounts[j + 1], path[j + 1], amounts[j]);
    }
  }

  // ----- routes that do not end at their output -----

  // The token the first amount of a backward pricing is in.
  function TokenBefore(pools: seq<Pool>, i: nat, tokenOut: Token): Token
    requires i <= |pools|
    decreases i
  {
    if i == 0 then tokenOut else TokenBefore(pools, i - 1, OtherToken(pools[i - 1], tokenOut))
  }

  lemma {:induction false} PricedAlongPath(pools: seq<Pool>, path: seq<Token>, i: nat)
    requires IsRoute(pools, path) && i <= |pools|
    ensures TokenBefore(pools, i, path[i]) == path[0]
    decreases i
  {
    if i > 0 {
      assert OtherToken(pools[i - 1], path[i]) == path[i - 1];
      PricedAlongPath(pools, path, i - 1);
    }
  }

  // Asked for the token it takes in, a pool passes the same mistake on to the pool before it, which can
  // be asked at all only if it joins the same two tokens.
  lemma {:induction false} PricedAgainstPath(pools: seq<Pool>, path: seq<Token>, i: nat, amount: nat)
    requires IsRoute(pools, path) && 0 < i <= |pools| && BackwardTo(pools, i, path[i - 1], amount).Success?
    ensures TokenBefore(pools, i, path[i - 1]) == path[1] != path[0]
    ensures forall j :: 0 <= j < i ==> Involves(pools[j], path[0]) && Involves(pools[j], path[1])
    decreases i
  {
    assert OtherToken(pools[i - 1], path[i - 1]) == path[i];
    if i > 1 {
      var quote := GetInputAmount(pools[i - 1], amount, path[i - 1]).value.0;
      assert BackwardTo(pools, i - 1, path[i], quote).Success?;
      assert Involves(pools[i - 2], path[i]);
      assert path[i] == path[i - 2];
      PricedAgainstPath(pools, path, i - 1, quote);
    }
  }

  // A priced exact output trade states its input in the input token if and only if its route ends at
  // its output; one that does not can be priced only through pools that all join the same two tokens.
  lemma PricedInInput(pools: seq<Pool>, path: seq<Token>, output: Token, amount: nat)
    requires IsRoute(pools, path) && Involves(pools[|pools| - 1], output)
    requires BackwardTo(pools, |pools|, output, amount).Success?
    ensures TokenBefore(pools, |pools|, output) == path[0] <==> output == path[|pools|]
    ensures output != path[|pools|] ==>
              TokenBefore(pools, |pools|, output) == path[1]
              && forall j :: 0 <= j < |pools| ==> Involves(pools[j], path[0]) && Involves(pools[j], path[1])
  {
    if output == path[|pools|] {
      PricedAlongPath(pools, path, |pools|);
    } else {
      assert output == path[|pools| - 1];
      PricedAgainstPath(pools, path, |pools|, amount);
    }
  }
}
