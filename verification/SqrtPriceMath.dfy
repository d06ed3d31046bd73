// Rounded token amounts and price moves of a concentrated liquidity pool.
module SqrtPriceMath {
  import opened Arith
  import opened Results

  // The fixed-point unit of prices, and the word size. Only that they are powers of two, hence
  // positive, is used; as numerals they would swamp the solver's nonlinear arithmetic.
  const Q96: nat := Pow2(96)
  const Q256: nat := Pow2(256)

  // FullMath.mulDivRoundingUp
  function MulDivRoundingUp(a: nat, b: nat, denominator: nat): nat
    requires denominator > 0
  {
    var product := a * b;
    var result: nat := product / denominator;
    if product % denominator != 0 then result + 1 else result
  }

  // The rounded-up quotient is the least integer whose multiple covers the product.
  lemma MulDivGalois(a: nat, b: nat, denominator: nat, k: nat)
    requires denominator > 0
    ensures MulDivRoundingUp(a, b, denominator) <= k <==> a * b <= k * denominator
  {
    RoundedUp(a * b, denominator);
    CeilGalois(a * b, denominator, k);
  }

  lemma RoundedUp(p: nat, d: nat)
    requires d > 0
    ensures (if p % d != 0 then p / d + 1 else p / d) == CeilDiv(p, d)
  {
    DivBounds(p, d);
    var q := if p % d != 0 then p / d + 1 else p / d;
    assert (p / d + 1) * d == p / d * d + d;
    DivUnique(p + d - 1, d, q);
  }

  function Numerator(liquidity: nat): nat {
    liquidity * Q96
  }

  function DivDown(x: nat, d: nat): nat
    requires d > 0
  {
    FloorGalois(x, d, 0);
    x / d
  }

  // Token0 between two prices; the argument order does not matter.
  function GetAmount0Delta(ratioA: nat, ratioB: nat, liquidity: nat, roundUp: bool): nat
    requires 0 < ratioA && 0 < ratioB
  {
    var (lower, upper) := if ratioA > ratioB then (ratioB, ratioA) else (ratioA, ratioB);
    var numerator2: nat := upper - lower;
    if roundUp then MulDivRoundingUp(MulDivRoundingUp(Numerator(liquidity), numerator2, upper), 1, lower)
    else DivDown(DivDown(Numerator(liquidity) * numerator2, upper), lower)
  }

  // Token1 between two prices.
  function GetAmount1Delta(ratioA: nat, ratioB: nat, liquidity: nat, roundUp: bool): nat {
    var (lower, upper) := if ratioA > ratioB then (ratioB, ratioA) else (ratioA, ratioB);
    var difference: nat := upper - lower;
    if roundUp then MulDivRoundingUp(liquidity, difference, Q96)
    else DivDown(liquidity * difference, Q96)
  }

  // Both amount deltas round to the integer next to the exact rational amount: rounding up gives
  // the least integer that is not below it, rounding down the greatest that is not above it.
  lemma Amount0UpGalois(lower: nat, upper: nat, liquidity: nat, k: nat)
    requires 0 < lower <= upper
    ensures GetAmount0Delta(lower, upper, liquidity, true) <= k
       <==> Numerator(liquidity) * (upper - lower) <= k * lower * upper
  {
    var n, d := Numerator(liquidity), upper - lower;
    hide Numerator;
    var inner := MulDivRoundingUp(n, d, upper);
    MulDivGalois(inner, 1, lower, k);
    MulMono(0, k, lower);
    MulDivGalois(n, d, upper, k * lower);
  }

  lemma Amount0DownGalois(lower: nat, upper: nat, liquidity: nat, k: nat)
    requires 0 < lower <= upper
    ensures k <= GetAmount0Delta(lower, upper, liquidity, false)
       <==> k * lower * upper <= Numerator(liquidity) * (upper - lower)
  {
    var n, d := Numerator(liquidity), upper - lower;
    hide Numerator;
    FloorGalois(n * d / upper, lower, k);
    FloorGalois(n * d, upper, k * lower);
  }

  lemma Amount1UpGalois(lower: nat, upper: nat, liquidity: nat, k: nat)
    requires lower <= upper
    ensures GetAmount1Delta(lower, upper, liquidity, true) <= k <==> liquidity * (upper - lower) <= k * Q96
  {
    MulDivGalois(liquidity, upper - lower, Q96, k);
  }

  lemma Amount1DownGalois(lower: nat, upper: nat, liquidity: nat, k: nat)
    requires lower <= upper
    ensures k <= GetAmount1Delta(lower, upper, liquidity, false) <==> k * Q96 <= liquidity * (upper - lower)
  {
    FloorGalois(liquidity * (upper - lower), Q96, k);
  }

  // The two roundings of an amount differ by at most one.
  lemma RoundingGap(lower: nat, upper: nat, liquidity: nat)
    requires 0 < lower <= upper
    ensures var down, up := GetAmount0Delta(lower, upper, liquidity, false), GetAmount0Delta(lower, upper, liquidity, true);
            down <= up <= down + 1
    ensures var down, up := GetAmount1Delta(lower, upper, liquidity, false), GetAmount1Delta(lower, upper, liquidity, true);
            down <= up <= down + 1
  {
    hide GetAmount0Delta, GetAmount1Delta;
    Amount0Gap(lower, upper, liquidity);
    Amount1Gap(lower, upper, liquidity);
  }

  lemma Amount0Gap(lower: nat, upper: nat, liquidity: nat)
    requires 0 < lower <= upper
    ensures var down, up := GetAmount0Delta(lower, upper, liquidity, false), GetAmount0Delta(lower, upper, liquidity, true);
            down <= up <= down + 1
  {
    hide GetAmount0Delta, Numerator;
    var n := Numerator(liquidity) * (upper - lower);
    var d, u := GetAmount0Delta(lower, upper, liquidity, false), GetAmount0Delta(lower, upper, liquidity, true);
    Amount0DownGalois(lower, upper, liquidity, d);
    Amount0DownGalois(lower, upper, liquidity, d + 1);
    Amount0UpGalois(lower, upper, liquidity, u);
    Amount0UpGalois(lower, upper, liquidity, d + 1);
    MulStrict(0, lower, upper);
    Reassociate(upper, u, lower);
    Reassociate(upper, d, lower);
    Bracket(n, lower * upper, d, u);
  }

  // A floor lies below a ceiling of the same quotient.
  lemma Bracket(n: int, c: nat, d: nat, u: nat)
    requires 0 < c && d * c <= n <= u * c
    ensures d <= u
  {
    MulCancel(d, u, c);
  }

  lemma Amount1Gap(lower: nat, upper: nat, liquidity: nat)
    requires lower <= upper
    ensures var down, up := GetAmount1Delta(lower, upper, liquidity, false), GetAmount1Delta(lower, upper, liquidity, true);
            down <= up <= down + 1
  {
    hide GetAmount1Delta, Pow2;
    var d, u := GetAmount1Delta(lower, upper, liquidity, false), GetAmount1Delta(lower, upper, liquidity, true);
    Amount1DownGalois(lower, upper, liquidity, d);
    Amount1DownGalois(lower, upper, liquidity, d + 1);
    Amount1UpGalois(lower, upper, liquidity, u);
    Amount1UpGalois(lower, upper, liquidity, d + 1);
    Bracket(liquidity * (upper - lower), Q96, d, u);
  }

  // Moving the price in two pieces never lets the trader pay less or receive more.
  lemma SplittingIsNeverCheaper(a: nat, b: nat, c: nat, liquidity: nat)
    requires 0 < a <= b <= c
    ensures GetAmount0Delta(a, c, liquidity, true)
         <= GetAmount0Delta(a, b, liquidity, true) + GetAmount0Delta(b, c, liquidity, true)
    ensures GetAmount0Delta(a, b, liquidity, false) + GetAmount0Delta(b, c, liquidity, false)
         <= GetAmount0Delta(a, c, liquidity, false)
    ensures GetAmount1Delta(a, c, liquidity, true)
         <= GetAmount1Delta(a, b, liquidity, true) + GetAmount1Delta(b, c, liquidity, true)
    ensures GetAmount1Delta(a, b, liquidity, false) + GetAmount1Delta(b, c, liquidity, false)
         <= GetAmount1Delta(a, c, liquidity, false)
  {
    hide GetAmount0Delta, GetAmount1Delta;
    Amount0Pieces(a, b, c, liquidity);
    Amount1Pieces(a, b, c, liquidity);
  }

  lemma Amount0Pieces(a: nat, b: nat, c: nat, liquidity: nat)
    requires 0 < a <= b <= c
    ensures GetAmount0Delta(a, c, liquidity, true)
         <= GetAmount0Delta(a, b, liquidity, true) + GetAmount0Delta(b, c, liquidity, true)
    ensures GetAmount0Delta(a, b, liquidity, false) + GetAmount0Delta(b, c, liquidity, false)
         <= GetAmount0Delta(a, c, liquidity, false)
  {
    hide GetAmount0Delta, Numerator;
    var n := Numerator(liquidity);
    var u1, u2 := GetAmount0Delta(a, b, liquidity, true), GetAmount0Delta(b, c, liquidity, true);
    var d1, d2 := GetAmount0Delta(a, b, liquidity, false), GetAmount0Delta(b, c, liquidity, false);
    Amount0UpGalois(a, b, liquidity, u1);
    Amount0UpGalois(b, c, liquidity, u2);
    Amount0UpGalois(a, c, liquidity, u1 + u2);
    Amount0DownGalois(a, b, liquidity, d1);
    Amount0DownGalois(b, c, liquidity, d2);
    Amount0DownGalois(a, c, liquidity, d1 + d2);
    JoinUp(n, a, b, c, u1, u2);
    JoinDown(n, a, b, c, d1, d2);
  }

  lemma Amount1Pieces(a: nat, b: nat, c: nat, liquidity: nat)
    requires 0 < a <= b <= c
    ensures GetAmount1Delta(a, c, liquidity, true)
         <= GetAmount1Delta(a, b, liquidity, true) + GetAmount1Delta(b, c, liquidity, true)
    ensures GetAmount1Delta(a, b, liquidity, false) + GetAmount1Delta(b, c, liquidity, false)
         <= GetAmount1Delta(a, c, liquidity, false)
  {
    hide GetAmount1Delta, Pow2;
    var v1, v2 := GetAmount1Delta(a, b, liquidity, true), GetAmount1Delta(b, c, liquidity, true);
    var e1, e2 := GetAmount1Delta(a, b, liquidity, false), GetAmount1Delta(b, c, liquidity, false);
    Amount1UpGalois(a, b, liquidity, v1);
    Amount1UpGalois(b, c, liquidity, v2);
    Amount1UpGalois(a, c, liquidity, v1 + v2);
    Amount1DownGalois(a, b, liquidity, e1);
    Amount1DownGalois(b, c, liquidity, e2);
    Amount1DownGalois(a, c, liquidity, e1 + e2);
    assert liquidity * (c - a) == liquidity * (b - a) + liquidity * (c - b);
    assert (v1 + v2) * Q96 == v1 * Q96 + v2 * Q96 && (e1 + e2) * Q96 == e1 * Q96 + e2 * Q96;
  }

  // b (c - a) = c (b - a) + a (c - b): the reciprocal price differences add up.
  lemma Pieces(n: int, a: int, b: int, c: int)
    ensures (n * (c - a)) * b == (n * (b - a)) * c + (n * (c - b)) * a
  {
    assert (c - a) * b == (b - a) * c + (c - b) * a;
    assert (n * (c - a)) * b == n * ((c - a) * b);
    assert (n * (b - a)) * c == n * ((b - a) * c);
    assert (n * (c - b)) * a == n * ((c - b) * a);
  }

  lemma Products(x: int, y: int, a: int, b: int, c: int)
    ensures ((x + y) * a * c) * b == (x * a * b) * c + (y * b * c) * a
  {
    assert (x * a * b) * c == (x * a * c) * b;
    assert (y * b * c) * a == (y * a * c) * b;
    assert (x + y) * a * c == x * a * c + y * a * c;
  }

  lemma JoinUp(n: nat, a: nat, b: nat, c: nat, x: nat, y: nat)
    requires 0 < a <= b <= c && n * (b - a) <= x * a * b && n * (c - b) <= y * b * c
    ensures n * (c - a) <= (x + y) * a * c
  {
    Pieces(n, a, b, c);
    Products(x, y, a, b, c);
    MulMono(n * (b - a), x * a * b, c);
    MulMono(n * (c - b), y * b * c, a);
    MulCancel(n * (c - a), (x + y) * a * c, b);
  }

  lemma JoinDown(n: nat, a: nat, b: nat, c: nat, x: nat, y: nat)
    requires 0 < a <= b <= c && x * a * b <= n * (b - a) && y * b * c <= n * (c - b)
    ensures (x + y) * a * c <= n * (c - a)
  {
    Pieces(n, a, b, c);
    Products(x, y, a, b, c);
    MulMono(x * a * b, n * (b - a), c);
    MulMono(y * b * c, n * (c - b), a);
    MulCancel((x + y) * a * c, n * (c - a), b);
  }

  // ----- price after an amount of token0 -----

  function GetNextSqrtPriceFromAmount0RoundingUp(sqrtP: nat, liquidity: nat, amount: nat, add: bool): Result<nat>
    requires 0 < sqrtP && 0 < liquidity
  {
    if amount == 0 then Success(sqrtP)
    else
      var numerator1 := Numerator(liquidity);
      var product: nat := amount * sqrtP % Q256;
      if add then
        var denominator: nat := (numerator1 + product) % Q256;
        if product / amount == sqrtP && numerator1 <= denominator then
          Success(MulDivRoundingUp(numerator1, sqrtP, denominator))
        else
          Success(MulDivRoundingUp(numerator1, 1, DivDown(numerator1, sqrtP) + amount))
      else if product / amount != sqrtP || numerator1 <= product then Failure("Invariant failed")
      else Success(MulDivRoundingUp(numerator1, sqrtP, numerator1 - product))
  }

  // The wrapped product passes the division test exactly when it did not wrap.
  lemma WrapTest(amount: nat, sqrtP: nat)
    requires 0 < amount && 0 < sqrtP
    ensures (amount * sqrtP % Q256) / amount == sqrtP <==> amount * sqrtP < Q256
  {
    var full := amount * sqrtP;
    DivUnique(full, amount, sqrtP);
    if full < Q256 {
      DivUnique(full, Q256, 0);
    } else {
      DivBounds(full, Q256);
      FloorGalois(full, Q256, 1);
      FloorGalois(full % Q256, amount, sqrtP);
    }
  }

  // Whichever of the two formulas is used, the price after adding amount is the rounded-up
  // N * P / (N + amount * P), or slightly above it, and never above P.
  lemma AddAmount0(sqrtP: nat, liquidity: nat, amount: nat, t: nat)
    requires 0 < sqrtP && 0 < liquidity && 0 < amount
    ensures var r := GetNextSqrtPriceFromAmount0RoundingUp(sqrtP, liquidity, amount, true);
            var n := Numerator(liquidity);
            && r.Success? && r.value <= sqrtP
            && n * sqrtP <= r.value * (n + amount * sqrtP)
            && (t * (n + amount * sqrtP) < n * sqrtP ==> t < r.value)
  {
    var n := Numerator(liquidity);
    assert 0 < n by { SomeNumerator(liquidity); }
    hide Numerator, MulDivRoundingUp, Pow2;
    var full := amount * sqrtP;
    MulStrict(0, amount, sqrtP);
    var product, denominator := full % Q256, (n + full % Q256) % Q256;
    Branch(n, sqrtP, amount, product, denominator);
    if product / amount == sqrtP && n <= denominator {
      AddExact(n, sqrtP, full, t);
    } else {
      FloorGalois(n, sqrtP, 0);
      AddFallback(n, sqrtP, amount, t);
    }
  }

  lemma SomeNumerator(liquidity: nat)
    requires 0 < liquidity
    ensures 0 < Numerator(liquidity)
  {
    MulStrict(0, liquidity, Q96);
  }

  // It is the least such price when nothing wraps, and at most the fallback's price in any case.
  lemma AddAmount0Least(sqrtP: nat, liquidity: nat, amount: nat, t: nat)
    requires 0 < sqrtP && 0 < liquidity && 0 < amount
    ensures var r := GetNextSqrtPriceFromAmount0RoundingUp(sqrtP, liquidity, amount, true);
            var n := Numerator(liquidity);
            && r.Success?
            && (amount * sqrtP < Q256 && n + amount * sqrtP < Q256 ==> (r.value <= t <==> n * sqrtP <= t * (n + amount * sqrtP)))
            && (n <= t * (DivDown(n, sqrtP) + amount) ==> r.value <= t)
  {
    var n := Numerator(liquidity);
    assert 0 < n;
    hide Numerator, DivDown, MulDivRoundingUp;
    var full := amount * sqrtP;
    var product, denominator := full % Q256, (n + full % Q256) % Q256;
    Branch(n, sqrtP, amount, product, denominator);
    if product / amount == sqrtP && n <= denominator {
      MulDivGalois(n, sqrtP, n + full, t);
      FallbackIsHigher(n, sqrtP, amount, t);
    } else {
      MulDivGalois(n, 1, DivDown(n, sqrtP) + amount, t);
    }
  }

  // The exact formula is used exactly when neither the product nor the sum wraps.
  lemma Branch(n: nat, sqrtP: nat, amount: nat, product: nat, denominator: nat)
    requires 0 < sqrtP && 0 < amount && product == amount * sqrtP % Q256 && denominator == (n + product) % Q256
    ensures product / amount == sqrtP && n <= denominator <==> amount * sqrtP < Q256 && n + amount * sqrtP < Q256
    ensures product / amount == sqrtP && n <= denominator ==> denominator == n + amount * sqrtP
  {
    var full := amount * sqrtP;
    WrapTest(amount, sqrtP);
    MulStrict(0, amount, sqrtP);
    if full < Q256 {
      DivUnique(full, Q256, 0);
      if n + full < Q256 {
        DivUnique(n + full, Q256, 0);
      } else if n <= denominator {
        NoWrap(n, full, Q256);
        DivBounds(n + full, Q256);
      }
    }
  }

  lemma FallbackIsHigher(n: nat, p: nat, amount: nat, t: nat)
    requires 0 < p
    ensures n <= t * (DivDown(n, p) + amount) ==> n * p <= t * (n + amount * p)
  {
    DivBounds(n, p);
    FallbackProduct(t, n / p, amount, p, n);
    if n <= t * (n / p + amount) {
      MulMono(n, t * (n / p + amount), p);
    }
  }

  lemma NoWrap(n: nat, product: nat, m: nat)
    requires product < m && n <= (n + product) % m
    ensures (n + product) % m == n + product
  {
    DivBounds(n + product, m);
    FloorGalois(n + product, m, 0);
    FloorGalois(n + product, m, 1);
  }

  lemma AddExact(n: nat, p: nat, full: nat, t: nat)
    requires 0 < n && 0 < p && 0 < full
    ensures var r := MulDivRoundingUp(n, p, n + full);
            r <= p && n * p <= r * (n + full) && (t * (n + full) < n * p ==> t < r)
  {
    var r := MulDivRoundingUp(n, p, n + full);
    MulDivGalois(n, p, n + full, p);
    MulDivGalois(n, p, n + full, r);
    MulDivGalois(n, p, n + full, t);
    MulMono(n, n + full, p);
  }

  lemma AddFallback(n: nat, p: nat, amount: nat, t: nat)
    requires 0 < n && 0 < p && 0 < amount && 0 <= n / p
    ensures var r := MulDivRoundingUp(n, 1, n / p + amount);
            r <= p && n * p <= r * (n + amount * p) && (t * (n + amount * p) < n * p ==> t < r)
  {
    hide MulDivRoundingUp;
    DivBounds(n, p);
    FallbackCase(n, p, n / p, amount, t);
  }

  lemma FallbackCase(n: nat, p: nat, q: nat, amount: nat, t: nat)
    requires 0 < n && 0 < p && 0 < amount && q * p <= n < q * p + p
    ensures var r := MulDivRoundingUp(n, 1, q + amount);
            r <= p && n * p <= r * (n + amount * p) && (t * (n + amount * p) < n * p ==> t < r)
  {
    hide MulDivRoundingUp;
    var d := q + amount;
    var r := MulDivRoundingUp(n, 1, d);
    MulDivGalois(n, 1, d, p);
    MulDivGalois(n, 1, d, r);
    FallbackCovers(n, p, q, amount);
    FallbackCross(n, p, q, amount, r);
    if r <= t {
      MulMono(r, t, d);
      FallbackCross(n, p, q, amount, t);
    }
  }

  lemma FallbackCovers(n: nat, p: nat, q: nat, amount: nat)
    requires 0 < amount && n < q * p + p
    ensures n <= p * (q + amount)
  {
    MulMono(1, amount, p);
    assert p * (q + amount) == q * p + amount * p;
  }

  lemma FallbackCross(n: nat, p: nat, q: nat, amount: nat, r: nat)
    requires q * p <= n && n <= r * (q + amount)
    ensures n * p <= r * (n + amount * p)
  {
    MulMono(n, r * (q + amount), p);
    FallbackProduct(r, q, amount, p, n);
  }

  lemma FallbackProduct(r: nat, q: nat, amount: nat, p: nat, n: nat)
    requires q * p <= n
    ensures (r * (q + amount)) * p <= r * (n + amount * p)
  {
    MulMono(q * p + amount * p, n + amount * p, r);
    assert (r * (q + amount)) * p == (q * p + amount * p) * r;
  }

  // Removing an amount fails exactly when the product wraps or exhausts the virtual reserve.
  lemma RemoveAmount0(sqrtP: nat, liquidity: nat, amount: nat, t: nat)
    requires 0 < sqrtP && 0 < liquidity && 0 < amount
    ensures var r := GetNextSqrtPriceFromAmount0RoundingUp(sqrtP, liquidity, amount, false);
            var n := Numerator(liquidity);
            && (r.Success? <==> amount * sqrtP < Q256 && amount * sqrtP < n)
            && (r.Success? ==>
                  && sqrtP <= r.value
                  && n * sqrtP <= r.value * (n - amount * sqrtP)
                  && (n * sqrtP <= t * (n - amount * sqrtP) ==> r.value <= t))
  {
    var n := Numerator(liquidity);
    hide Numerator;
    var full := amount * sqrtP;
    WrapTest(amount, sqrtP);
    if full < Q256 && full < n {
      DivUnique(full, Q256, 0);
      var d: nat := n - full;
      var r := MulDivRoundingUp(n, sqrtP, d);
      MulDivGalois(n, sqrtP, d, r);
      MulDivGalois(n, sqrtP, d, t);
      if r < sqrtP {
        MulStrict(0, amount, sqrtP);
        MulMono(r, sqrtP, d);
        MulStrict(d, n, sqrtP);
        assert false;
      }
    } else if full < Q256 {
      DivUnique(full, Q256, 0);
    }
  }

  // ----- price after an amount of token1 -----

  function GetNextSqrtPriceFromAmount1RoundingDown(sqrtP: nat, liquidity: nat, amount: nat, add: bool): Result<nat>
    requires 0 < liquidity
  {
    if add then
      Success(sqrtP + DivDown(amount * Q96, liquidity))
    else
      var quotient := MulDivRoundingUp(amount, Q96, liquidity);
      if sqrtP <= quotient then Failure("Invariant failed") else Success(sqrtP - quotient)
  }

  // Adding token1 moves the price to the greatest integer the amount pays for.
  lemma AddAmount1(sqrtP: nat, liquidity: nat, amount: nat, t: nat)
    requires 0 < liquidity
    ensures var r := GetNextSqrtPriceFromAmount1RoundingDown(sqrtP, liquidity, amount, true);
            && r.Success? && sqrtP <= r.value
            && liquidity * (r.value - sqrtP) <= amount * Q96
            && (sqrtP <= t ==> (t <= r.value <==> liquidity * (t - sqrtP) <= amount * Q96))
  {
    var q := amount * Q96 / liquidity;
    FloorGalois(amount * Q96, liquidity, 0);
    FloorGalois(amount * Q96, liquidity, q);
    if sqrtP <= t {
      FloorGalois(amount * Q96, liquidity, t - sqrtP);
    }
  }

  // Removing token1 fails exactly when it would use the price up, and otherwise moves it to the
  // greatest integer that releases the amount.
  lemma RemoveAmount1(sqrtP: nat, liquidity: nat, amount: nat, t: nat)
    requires 0 < liquidity && 0 < sqrtP
    ensures var r := GetNextSqrtPriceFromAmount1RoundingDown(sqrtP, liquidity, amount, false);
            && (r.Success? <==> amount * Q96 <= liquidity * (sqrtP - 1))
            && (r.Success? ==>
                  && 0 < r.value <= sqrtP
                  && amount * Q96 <= liquidity * (sqrtP - r.value)
                  && (t <= sqrtP && amount * Q96 <= liquidity * (sqrtP - t) ==> t <= r.value))
  {
    var q := MulDivRoundingUp(amount, Q96, liquidity);
    MulDivGalois(amount, Q96, liquidity, q);
    MulDivGalois(amount, Q96, liquidity, sqrtP - 1);
    Commuted(q, liquidity);
    Commuted(sqrtP - 1, liquidity);
    if t <= sqrtP {
      MulDivGalois(amount, Q96, liquidity, sqrtP - t);
      Commuted(sqrtP - t, liquidity);
    }
  }

  lemma Commuted(a: int, b: int)
    ensures a * b == b * a
  {
  }
}
