// The amounts of a plan: floored slices and their dust, the tolerated minimum, the fee.
module PlanAmounts {
  import opened Arith
  import opened RoutePlan

  function Part(swap: Swap): int {
    Quotient(swap.inputAmount)
  }

  // What the legs take in, each slice floored by itself.
  function Spent(t: Trade, from: nat): int
    requires from <= |t.swaps|
    decreases |t.swaps| - from
  {
    if from == |t.swaps| then 0 else Part(t.swaps[from]) + Spent(t, from + 1)
  }

  lemma {:induction false} SpentBounds(t: Trade, o: Options, from: nat)
    requires WellFormed(t, o) && from <= |t.swaps|
    ensures Spent(t, from) >= 0 && forall k :: from <= k < |t.swaps| ==> 0 <= Part(t.swaps[k]) <= Spent(t, from)
    decreases |t.swaps| - from
  {
    hide RouteOk;
    if from < |t.swaps| {
      SpentBounds(t, o, from + 1);
      assert t.swaps[from].inputAmount >= 0.0;
    }
  }

  function Suffix(t: Trade, from: nat): real
    requires from <= |t.swaps|
    decreases |t.swaps| - from
  {
    if from == |t.swaps| then 0.0 else t.swaps[from].inputAmount + Suffix(t, from + 1)
  }

  lemma {:induction false} SuffixTotal(t: Trade, from: nat)
    requires from <= |t.swaps|
    ensures TotalIn(t.swaps[..from]) + Suffix(t, from) == TotalIn(t.swaps)
    decreases |t.swaps| - from
  {
    if from == |t.swaps| {
      assert t.swaps[..from] == t.swaps;
    } else {
      SuffixTotal(t, from + 1);
      assert t.swaps[..from + 1][..from] == t.swaps[..from];
    }
  }

  lemma {:induction false} FloorsBelow(t: Trade, from: nat)
    requires from <= |t.swaps|
    ensures Spent(t, from) as real <= Suffix(t, from)
    ensures from < |t.swaps| ==> Suffix(t, from) < (Spent(t, from) + |t.swaps| - from) as real
    decreases |t.swaps| - from
  {
    if from < |t.swaps| {
      FloorsBelow(t, from + 1);
      var x := t.swaps[from].inputAmount;
      assert x.Floor as real <= x < (x.Floor + 1) as real;
    }
  }

  // Dust: what flooring slice by slice leaves of the floored total is less than one unit per leg.
  lemma Dust(t: Trade)
    requires t.swaps != []
    ensures 0 <= Quotient(TotalIn(t.swaps)) - Spent(t, 0) < |t.swaps|
  {
    SuffixTotal(t, 0);
    FloorsBelow(t, 0);
    assert t.swaps[..0] == [];
    var x := TotalIn(t.swaps);
    assert x.Floor as real <= x < (x.Floor + 1) as real;
  }

  // ----- slices -----

  function Slice(amount: real, percent: int): real {
    amount * percent as real / 100.0
  }

  // The slices a trade may be split into, smallest first.
  method SplitAmount(amount: real, distributionPercent: int) returns (percents: seq<int>, amounts: seq<real>)
    requires distributionPercent > 0
    ensures |percents| == |amounts| == 100 / distributionPercent
    ensures forall i :: 0 <= i < |percents| ==> percents[i] == (i + 1) * distributionPercent && amounts[i] == Slice(amount, percents[i])
  {
    percents, amounts := [], [];
    var percent := distributionPercent;
    while percent <= 100
      invariant percent == (|percents| + 1) * distributionPercent && |amounts| == |percents|
      invariant |percents| * distributionPercent <= 100
      invariant forall i :: 0 <= i < |percents| ==>
        percents[i] == (i + 1) * distributionPercent && amounts[i] == Slice(amount, percents[i])
      decreases 100 - percent
    {
      percents := percents + [percent];
      amounts := amounts + [Slice(amount, percent)];
      percent := percent + distributionPercent;
    }
    DivUnique(100, distributionPercent, |percents|);
  }

  function PercentTotal(percents: seq<int>): int {
    if percents == [] then 0 else PercentTotal(percents[..|percents| - 1]) + percents[|percents| - 1]
  }

  lemma {:induction false} SlicesTotal(swaps: seq<Swap>, percents: seq<int>, amount: real)
    requires |swaps| == |percents| && forall k :: 0 <= k < |swaps| ==> swaps[k].inputAmount == Slice(amount, percents[k])
    ensures TotalIn(swaps) == Slice(amount, PercentTotal(percents))
    decreases |swaps|
  {
    if swaps != [] {
      var n := |swaps| - 1;
      SlicesTotal(swaps[..n], percents[..n], amount);
      SliceSum(amount, PercentTotal(percents[..n]), percents[n]);
    }
  }

  lemma SliceSum(amount: real, p: int, q: int)
    ensures Slice(amount, p) + Slice(amount, q) == Slice(amount, p + q)
  {
    assert (p + q) as real == p as real + q as real;
    assert amount * (p as real + q as real) == amount * p as real + amount * q as real;
  }

  // Slices whose percentages total 100 total the amount, so a split spends it up to less than one
  // unit per leg.
  lemma SplitSpends(t: Trade, percents: seq<int>, amount: real)
    requires t.swaps != [] && |t.swaps| == |percents| && PercentTotal(percents) == 100
    requires forall k :: 0 <= k < |t.swaps| ==> t.swaps[k].inputAmount == Slice(amount, percents[k])
    ensures TotalIn(t.swaps) == amount
    ensures 0 <= Quotient(amount) - Spent(t, 0) < |t.swaps|
  {
    SlicesTotal(t.swaps, percents, amount);
    Dust(t);
  }

  // ----- the minimum and the fee -----

  function FeeTaken(o: Options, total: nat): int
    requires o.fee.Some? ==> o.fee.value.denominator > 0
  {
    match o.fee
    case None => 0
    case Some(fee) => total * Bips(fee) / 10_000
  }

  function Minimum(t: Trade, o: Options): int
    requires o.slippageDenominator > 0
  {
    MinimumAmountOut(o, TotalOut(t.swaps))
  }

  // When the plan lets an output through: the trade's minimum is met, or with a fee, the fee is a
  // payable share and what is left of the output meets the minimum less the fee.
  predicate Accepted(t: Trade, o: Options, total: nat)
    requires o.slippageDenominator > 0 && (o.fee.Some? ==> o.fee.value.denominator > 0)
  {
    match o.fee
    case None => total >= Minimum(t, o)
    case Some(fee) =>
      && 0 < Bips(fee) <= 10_000
      && total - FeeTaken(o, total) >= MinimumAfterFee(o, Minimum(t, o))
      && (t.output.Native? ==> total >= Minimum(t, o))
  }

  // Paying the fee first never makes the sweep fail: an output that meets the trade's minimum still
  // meets the minimum less the fee.
  lemma FeeKeepsMinimum(t: Trade, o: Options, total: nat)
    requires o.slippageDenominator > 0 && o.fee.Some? && o.fee.value.denominator > 0
    requires o.fee.value.numerator <= o.fee.value.denominator && total >= Minimum(t, o)
    ensures Accepted(t, o, total) <==> Bips(o.fee.value) > 0
  {
    var fee, minimum := o.fee.value, Minimum(t, o);
    BipsAtMostAll(fee);
    FeeLeavesMinimum(total, minimum, fee.numerator, fee.denominator);
  }

  // The minimum left after the fee is the greatest amount that is no more than the rest of the minimum.
  lemma MinimumAfterFeeIsRest(o: Options, minimum: int, k: int)
    requires o.fee.Some? ==> o.fee.value.denominator > 0
    ensures o.fee.None? ==> MinimumAfterFee(o, minimum) == minimum
    ensures o.fee.Some? ==>
      var fee := o.fee.value;
      k <= MinimumAfterFee(o, minimum) <==> k * fee.denominator <= minimum * (fee.denominator - fee.numerator)
  {
    if o.fee.Some? {
      var fee := o.fee.value;
      FloorGalois(minimum * (fee.denominator - fee.numerator), fee.denominator, k);
    }
  }

  // A share the router can pay: between one bip and everything.
  predicate PayableFee(o: Options)
    requires o.fee.Some? ==> o.fee.value.denominator > 0
  {
    o.fee.Some? ==> 0 < Bips(o.fee.value) <= 10_000
  }

  lemma CoveredIsAccepted(t: Trade, o: Options, total: nat)
    requires o.slippageDenominator > 0 && (o.fee.Some? ==> o.fee.value.denominator > 0)
    requires PayableFee(o) && 0 <= Minimum(t, o) <= total
    ensures Accepted(t, o, total)
  {
    if o.fee.Some? {
      var fee, minimum := o.fee.value, Minimum(t, o);
      if fee.numerator <= fee.denominator {
        FeeKeepsMinimum(t, o, total);
      } else {
        hide MinimumAmountOut, TotalOut, Bips;
        MulMono(Bips(fee), 10_000, total);
        FloorGalois(total * Bips(fee), 10_000, total + 1);
        MulMono(0, minimum, fee.numerator - fee.denominator);
        assert minimum * (fee.denominator - fee.numerator) == 0 - minimum * (fee.numerator - fee.denominator);
        FloorGalois(minimum * (fee.denominator - fee.numerator), fee.denominator, 1);
      }
    }
  }

  lemma BipsAtMostAll(fee: Fee)
    requires 0 < fee.denominator && fee.numerator <= fee.denominator
    ensures Bips(fee) <= 10_000
  {
    var b := Bips(fee);
    FloorGalois(fee.numerator * 10_000, fee.denominator, 10_001);
    if b > 10_000 {
      FloorGalois(fee.numerator * 10_000, fee.denominator, b);
      MulMono(fee.denominator, 10_001, b);
    }
  }

  lemma FeeLeavesMinimum(total: nat, minimum: int, numerator: nat, denominator: nat)
    requires 0 < denominator && numerator <= denominator && minimum <= total
    ensures total - total * (numerator * 10_000 / denominator) / 10_000 >= minimum * (denominator - numerator) / denominator
  {
    var b := numerator * 10_000 / denominator;
    var y := total * b / 10_000;
    var x := minimum * (denominator - numerator) / denominator;
    assert x * denominator <= total * denominator - total * numerator by {
      assert x * denominator <= minimum * (denominator - numerator);
      assert minimum * (denominator - numerator) <= total * (denominator - numerator);
      assert total * (denominator - numerator) == total * denominator - total * numerator;
    }
    assert y * denominator <= total * numerator by {
      assert y * 10_000 <= total * b;
      assert b * denominator <= numerator * 10_000;
      assert total * (b * denominator) <= total * (numerator * 10_000);
      assert (y * 10_000) * denominator <= (total * b) * denominator;
    }
    assert (x + y) * denominator <= total * denominator;
  }

  lemma TinyFeeIsNoBip(fee: Fee)
    requires 0 < fee.denominator && fee.numerator * 10_000 < fee.denominator
    ensures Bips(fee) == 0
  {
    DivUnique(fee.numerator * 10_000, fee.denominator, 0);
  }

  // The minimum is the greatest amount that, raised by the tolerance, the quoted output still covers.
  lemma MinimumIsTolerated(o: Options, amount: real, k: int)
    requires o.slippageDenominator > 0
    ensures k <= MinimumAmountOut(o, amount)
       <==> k * (o.slippageDenominator + o.slippageNumerator) <= Quotient(amount) * o.slippageDenominator
  {
    FloorGalois(Quotient(amount) * o.slippageDenominator, o.slippageDenominator + o.slippageNumerator, k);
  }

  // The fee that is taken is never more than its share of the output, and falls short of it by less
  // than a unit plus one bip of the output.
  lemma FeeIsItsShare(o: Options, total: nat)
    requires o.fee.Some? && o.fee.value.denominator > 0
    ensures
      var fee := o.fee.value;
      && FeeTaken(o, total) * fee.denominator <= total * fee.numerator
      && total * fee.numerator * 10_000 <= (FeeTaken(o, total) + 1) * 10_000 * fee.denominator + total * fee.denominator
  {
    var fee := o.fee.value;
    ShareBounds(total, fee.numerator, fee.denominator, Bips(fee), FeeTaken(o, total));
  }

  lemma ShareBounds(total: nat, numerator: nat, denominator: nat, b: nat, taken: nat)
    requires denominator > 0 && b == numerator * 10_000 / denominator && taken == total * b / 10_000
    ensures taken * denominator <= total * numerator
    ensures total * numerator * 10_000 <= (taken + 1) * 10_000 * denominator + total * denominator
  {
    DivBounds(numerator * 10_000, denominator);
    DivBounds(total * b, 10_000);
    ShareUpper(total, numerator, denominator, b, taken);
    ShareLower(total, numerator, denominator, b, taken);
  }

  lemma ShareUpper(total: nat, numerator: nat, denominator: nat, b: nat, taken: nat)
    requires b * denominator <= numerator * 10_000 && taken * 10_000 <= total * b
    ensures taken * denominator <= total * numerator
  {
    MulMono(taken * 10_000, total * b, denominator);
    MulMono(b * denominator, numerator * 10_000, total);
    assert (total * b) * denominator == (b * denominator) * total;
    assert (taken * 10_000) * denominator == (taken * denominator) * 10_000;
    assert (numerator * 10_000) * total == (total * numerator) * 10_000;
  }

  lemma ShareLower(total: nat, numerator: nat, denominator: nat, b: nat, taken: nat)
    requires numerator * 10_000 <= b * denominator + denominator && total * b <= (taken + 1) * 10_000
    ensures total * numerator * 10_000 <= (taken + 1) * 10_000 * denominator + total * denominator
  {
    MulMono(numerator * 10_000, b * denominator + denominator, total);
    MulMono(total * b, (taken + 1) * 10_000, denominator);
    assert (b * denominator + denominator) * total == (total * b) * denominator + total * denominator;
    assert (numerator * 10_000) * total == total * numerator * 10_000;
  }
}
