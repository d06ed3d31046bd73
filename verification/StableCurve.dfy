// What the rounded curve of a stable pool has to do with x^3 y + x y^3.
module StableCurve {
  import opened Arith
  import opened Results
  import opened V2Pool

  // ----- three floors -----

  // The first two divisions, of x y and of x^2 + y^2.
  lemma InnerFloors(x: nat, y: nat, e: nat, a: nat, b: nat)
    requires e > 0 && a == x * y / e && b == x * x / e + y * y / e
    ensures a * e <= x * y < (a + 1) * e
    ensures b * e <= x * x + y * y < (b + 2) * e
  {
    DivBounds(x * y, e);
    DivBounds(x * x, e);
    DivBounds(y * y, e);
    assert (a + 1) * e == a * e + e;
    Spread(x * x / e, y * y / e, e);
  }

  lemma Spread(u: int, v: int, e: int)
    ensures (u + v) * e == u * e + v * e && (u + v + 2) * e == u * e + v * e + 2 * e
  {
  }

  // The product of the quotients, against the product of the dividends.
  lemma ProductOfFloors(p: nat, q: nat, a: nat, b: nat, e: nat)
    requires a * e <= p < (a + 1) * e && b * e <= q < (b + 2) * e
    ensures a * b * (e * e) <= p * q < (a * b + 2 * a + b + 2) * (e * e)
  {
    MulMono(0, a, e);
    MulMono(0, b, e);
    MulMono(a * e, p, b * e);
    MulMono(b * e, q, p);
    Regroup(a, b, e);
    MulMono(p, (a + 1) * e, q);
    assert 0 < (a + 1) * e;
    MulStrict(q, (b + 2) * e, (a + 1) * e);
    Regroup(a + 1, b + 2, e);
    assert (a + 1) * (b + 2) == a * b + 2 * a + b + 2;
  }

  lemma Regroup(a: int, b: int, e: int)
    ensures (a * e) * (b * e) == a * b * (e * e) && (b * e) * (a * e) == a * b * (e * e)
  {
  }

  // All three divisions: never above the exact value, and below it by a stated loss.
  lemma ThreeFloors(x: nat, y: nat, e: nat, a: nat, b: nat, f: nat)
    requires e > 0 && a == x * y / e && b == x * x / e + y * y / e && f == a * b / e
    ensures f * (e * e * e) <= x * y * (x * x + y * y) < (f + 1) * (e * e * e) + ((x + y) * (x + y) + 2 * e) * e
  {
    InnerFloors(x, y, e, a, b);
    var p, q := x * y, x * x + y * y;
    ProductOfFloors(p, q, a, b, e);
    DivBounds(a * b, e);
    LastFloor(p, q, a, b, f, e);
    assert 2 * p + q == (x + y) * (x + y);
  }

  lemma LastFloor(p: nat, q: nat, a: nat, b: nat, f: nat, e: nat)
    requires e > 0 && f * e <= a * b < f * e + e && a * e <= p && b * e <= q
    requires a * b * (e * e) <= p * q < (a * b + 2 * a + b + 2) * (e * e)
    ensures f * (e * e * e) <= p * q < (f + 1) * (e * e * e) + (2 * p + q + 2 * e) * e
  {
    MulMono(0, e, e);
    MulMono(f * e, a * b, e * e);
    assert f * (e * e * e) == f * e * (e * e);
    MulMono(a * b, f * e + e, e * e);
    assert (f + 1) * (e * e * e) == (f * e + e) * (e * e);
    Rounding(p, q, a, b, e);
    assert (a * b + 2 * a + b + 2) * (e * e) == a * b * (e * e) + (2 * a + b + 2) * (e * e);
  }

  lemma Rounding(p: nat, q: nat, a: nat, b: nat, e: nat)
    requires a * e <= p && b * e <= q
    ensures (2 * a + b + 2) * (e * e) <= (2 * p + q + 2 * e) * e
  {
    assert (2 * a + b + 2) * e == 2 * (a * e) + b * e + 2 * e;
    MulMono((2 * a + b + 2) * e, 2 * p + q + 2 * e, e);
    assert (2 * a + b + 2) * (e * e) == (2 * a + b + 2) * e * e;
  }

  // ----- the curve -----

  // The three truncated divisions stay at or below the exact x^3 y + x y^3, in units of 10^54, and
  // lose less than one unit plus what the first two divisions can drop.
  lemma CurveIsPolynomial(x: nat, y: nat)
    ensures F(x, y) * 1_000_000_000_000_000_000_000_000_000_000_000_000_000_000_000_000_000_000
      <= x * y * (x * x + y * y)
    ensures x * y * (x * x + y * y)
      < (F(x, y) + 1) * 1_000_000_000_000_000_000_000_000_000_000_000_000_000_000_000_000_000_000
        + ((x + y) * (x + y) + 2_000_000_000_000_000_000) * 1_000_000_000_000_000_000
  {
    hide F;
    CurveFloors(x, y, E18);
  }

  lemma CurveFloors(x: nat, y: nat, e: nat)
    requires e == E18
    ensures F(x, y) * (e * e * e) <= x * y * (x * x + y * y) < (F(x, y) + 1) * (e * e * e) + ((x + y) * (x + y) + 2 * e) * e
  {
    MulMono(0, x, y);
    Square(x);
    Square(y);
    TruncNonNegative(x * y, e);
    TruncNonNegative(x * x, e);
    TruncNonNegative(y * y, e);
    var a, b := x * y / e, x * x / e + y * y / e;
    MulMono(0, a, b);
    TruncNonNegative(a * b, e);
    ThreeFloors(x, y, e, a, b, F(x, y));
  }

  // Newton's divisor is the derivative 3 x y^2 + x^3, in units of 10^36 and never above it.
  lemma DivisorIsDerivative(x: nat, y: nat)
    ensures D(x, y) * 1_000_000_000_000_000_000_000_000_000_000_000_000 <= 3 * x * y * y + x * x * x
    ensures 3 * x * y * y + x * x * x
      < (D(x, y) + 2) * 1_000_000_000_000_000_000_000_000_000_000_000_000 + 4 * x * 1_000_000_000_000_000_000
  {
    hide D;
    DivisorFloors(x, y, E18);
  }

  lemma DivisorFloors(x: nat, y: nat, e: nat)
    requires e == E18
    ensures D(x, y) * (e * e) <= 3 * x * y * y + x * x * x < (D(x, y) + 2) * (e * e) + 4 * x * e
  {
    Square(x);
    Square(y);
    TruncNonNegative(x * x, e);
    TruncNonNegative(y * y, e);
    var u, v := x * x / e, y * y / e;
    MulMono(0, v, 3 * x);
    MulMono(0, u, x);
    TruncNonNegative(3 * x * v, e);
    TruncNonNegative(u * x, e);
    assert u * x == x * u;
    FloorOfProduct(3 * x, y * y, e, v, 3 * x * v / e);
    FloorOfProduct(x, x * x, e, u, u * x / e);
    TwoFloors(x, y, e, 3 * x * v / e, u * x / e);
  }

  lemma TwoFloors(x: nat, y: nat, e: nat, s: nat, t: nat)
    requires s * (e * e) <= 3 * x * (y * y) < (s + 1) * (e * e) + 3 * x * e
    requires t * (e * e) <= x * (x * x) < (t + 1) * (e * e) + x * e
    ensures (s + t) * (e * e) <= 3 * x * y * y + x * x * x < (s + t + 2) * (e * e) + 4 * x * e
  {
    CubicTerms(x, y, e);
    SumOfFloors(s, t, e * e, 3 * x * (y * y), x * (x * x), 3 * x * e, x * e);
  }

  lemma CubicTerms(x: int, y: int, e: int)
    ensures 3 * x * (y * y) == 3 * x * y * y && x * (x * x) == x * x * x && 3 * x * e + x * e == 4 * x * e
  {
  }

  lemma SumOfFloors(s: int, t: int, unit: int, p: int, q: int, m: int, n: int)
    requires s * unit <= p < (s + 1) * unit + m && t * unit <= q < (t + 1) * unit + n
    ensures (s + t) * unit <= p + q < (s + t + 2) * unit + m + n
  {
    assert (s + t) * unit == s * unit + t * unit;
    assert (s + t + 2) * unit == (s + 1) * unit + (t + 1) * unit;
  }

  // A floor, times something, floored again.
  lemma FloorOfProduct(m: nat, p: nat, e: nat, u: nat, s: nat)
    requires e > 0 && u == p / e && s == m * u / e
    ensures s * (e * e) <= m * p < (s + 1) * (e * e) + m * e
  {
    DivBounds(p, e);
    DivBounds(m * u, e);
    MulMono(u * e, p, m);
    MulMono(p, u * e + e, m);
    MulMono(s * e, m * u, e);
    MulStrict(m * u, s * e + e, e);
    FloorTerms(m, e, u, s);
  }

  lemma FloorTerms(m: int, e: int, u: int, s: int)
    ensures s * e * e == s * (e * e) && (s * e + e) * e == (s + 1) * (e * e)
    ensures m * u * e == u * e * m && (u * e + e) * m == m * u * e + m * e
  {
    assert m * u * e == m * (u * e);
    assert (s + 1) * (e * e) == s * (e * e) + e * e;
  }

  // ----- the invariant of a pool, in its own reserves and decimals -----

  lemma TenTo18()
    ensures Pow10(18) == 1_000_000_000_000_000_000 && Pow10(6) == 1_000_000 && Pow10(1) == 10 && Pow10(0) == 1
  {
    assert Pow10(6) == 1_000_000;
    assert Pow10(12) == 1_000_000 * 1_000_000;
  }

  // Reserves are scaled to eighteen decimals and rounded down.
  lemma NormaliseIsScaling(amount: nat, token: Token)
    ensures Normalise(amount, token) * Pow10(token.decimals) <= amount * 1_000_000_000_000_000_000
    ensures amount * 1_000_000_000_000_000_000 < (Normalise(amount, token) + 1) * Pow10(token.decimals)
  {
    hide Pow10;
    DivBounds(amount * E18, Pow10(token.decimals));
    assert (Normalise(amount, token) + 1) * Pow10(token.decimals) == Normalise(amount, token) * Pow10(token.decimals) + Pow10(token.decimals);
  }

  // k never exceeds x^3 y + x y^3 of the raw reserves, each brought to eighteen decimals.
  lemma KOfReserves(p: Pool)
    requires p.stable
    ensures
      var d0, d1 := Pow10(p.token0.decimals), Pow10(p.token1.decimals);
      var x, y := p.reserve0 * d1, p.reserve1 * d0;
      K(p, p.reserve0, p.reserve1) * (d0 * d0 * d0) * (d1 * d1 * d1)
        <= 1_000_000_000_000_000_000 * p.reserve0 * p.reserve1 * (x * x + y * y)
  {
    hide Pow10, Normalise, F, K;
    KFloors(p, E18, Pow10(p.token0.decimals), Pow10(p.token1.decimals));
  }

  lemma KFloors(p: Pool, e: nat, d0: nat, d1: nat)
    requires p.stable && e == E18 && d0 == Pow10(p.token0.decimals) && d1 == Pow10(p.token1.decimals)
    ensures
      var x, y := p.reserve0 * d1, p.reserve1 * d0;
      K(p, p.reserve0, p.reserve1) * (d0 * d0 * d0) * (d1 * d1 * d1) <= e * p.reserve0 * p.reserve1 * (x * x + y * y)
  {
    hide Pow10, Normalise, F;
    var n0, n1 := Normalise(p.reserve0, p.token0), Normalise(p.reserve1, p.token1);
    CurveFloors(n0, n1, e);
    NormaliseIsScaling(p.reserve0, p.token0);
    NormaliseIsScaling(p.reserve1, p.token1);
    Rescaled(F(n0, n1), n0, n1, d0, d1, p.reserve0, p.reserve1, e);
  }

  lemma Rescaled(f: int, n0: nat, n1: nat, d0: nat, d1: nat, r0: nat, r1: nat, e: nat)
    requires e > 0 && f * (e * e * e) <= n0 * n1 * (n0 * n0 + n1 * n1)
    requires n0 * d0 <= r0 * e && n1 * d1 <= r1 * e
    ensures f * (d0 * d0 * d0) * (d1 * d1 * d1) <= e * r0 * r1 * (r0 * d1 * (r0 * d1) + r1 * d0 * (r1 * d0))
  {
    var a, b := n0 * d0, n1 * d1;
    var g, h := r0 * e, r1 * e;
    MulMono(0, n0, d0);
    MulMono(0, n1, d1);
    CubesNonNegative(d0, d1);
    Homogeneous(n0, n1, d0, d1);
    PolynomialMono(a, b, g, h, d0, d1);
    Scaled(r0, r1, e, d0, d1);
    CubePositive(e);
    CancelScale(f, e * e * e, n0 * n1 * (n0 * n0 + n1 * n1), d0 * d0 * d0, d1 * d1 * d1,
                g * h * (g * d1 * (g * d1) + h * d0 * (h * d0)), e * r0 * r1 * (r0 * d1 * (r0 * d1) + r1 * d0 * (r1 * d0)));
  }

  lemma CubePositive(e: nat)
    requires 0 < e
    ensures 0 < e * e * e
  {
    MulStrict(0, e, e);
    MulStrict(0, e * e, e);
  }

  lemma CancelScale(f: int, unit: int, p: int, c0: int, c1: int, b: int, r: int)
    requires 0 < unit && 0 <= c0 * c1 && f * unit <= p && p * (c0 * c1) <= b && b == r * unit
    ensures f * c0 * c1 <= r
  {
    MulMono(f * unit, p, c0 * c1);
    assert f * unit * (c0 * c1) == f * c0 * c1 * unit;
    MulCancel(f * c0 * c1, r, unit);
  }

  lemma CubesNonNegative(d0: nat, d1: nat)
    ensures 0 <= d0 * d0 * d0 * (d1 * d1 * d1)
  {
    MulMono(0, d0, d0);
    MulMono(0, d0 * d0, d0);
    MulMono(0, d1, d1);
    MulMono(0, d1 * d1, d1);
    MulMono(0, d0 * d0 * d0, d1 * d1 * d1);
  }

  // Bringing both sides to a common scale.
  lemma Homogeneous(n0: int, n1: int, d0: int, d1: int)
    ensures var a, b := n0 * d0, n1 * d1;
      n0 * n1 * (n0 * n0 + n1 * n1) * (d0 * d0 * d0 * (d1 * d1 * d1)) == a * b * (a * d1 * (a * d1) + b * d0 * (b * d0))
  {
    var c := d0 * d1;
    Swap(n0, d0, n1, d1);
    Reassociate3(n0, d0, d1);
    Reassociate3(n1, d1, d0);
    CommonScale(n0, n1, c);
    Cubes(d0, d1);
  }

  lemma Swap(a: int, b: int, c: int, d: int)
    ensures a * b * (c * d) == a * c * (b * d)
  {
    assert a * b * (c * d) == a * (b * (c * d)) == a * (c * (b * d));
  }

  lemma Reassociate3(a: int, b: int, c: int)
    ensures a * b * c == a * (b * c) == a * (c * b)
  {
  }

  lemma Cubes(d0: int, d1: int)
    ensures d0 * d0 * d0 * (d1 * d1 * d1) == d0 * d1 * (d0 * d1) * (d0 * d1)
  {
    Swap(d0 * d0, d0, d1 * d1, d1);
    Swap(d0, d0, d1, d1);
  }

  lemma CommonScale(n0: int, n1: int, c: int)
    ensures n0 * n1 * (n0 * n0 + n1 * n1) * (c * c * c) == n0 * n1 * c * (n0 * c * (n0 * c) + n1 * c * (n1 * c))
  {
    var squares := n0 * n0 + n1 * n1;
    Swap(n0, c, n0, c);
    Swap(n1, c, n1, c);
    Distribute(n0 * n0, n1 * n1, c * c);
    Reassociate3(c, c, c);
    Swap(n0 * n1, squares, c, c * c);
  }

  lemma Distribute(a: int, b: int, c: int)
    ensures a * c + b * c == (a + b) * c
  {
  }

  lemma PolynomialMono(a: nat, b: nat, g: nat, h: nat, d0: nat, d1: nat)
    requires a <= g && b <= h
    ensures a * b * (a * d1 * (a * d1) + b * d0 * (b * d0)) <= g * h * (g * d1 * (g * d1) + h * d0 * (h * d0))
  {
    ProductMono(a, b, g, h);
    ProductMono(a, d1, g, d1);
    ProductMono(b, d0, h, d0);
    ProductMono(a * d1, a * d1, g * d1, g * d1);
    ProductMono(b * d0, b * d0, h * d0, h * d0);
    ProductMono(a * b, a * d1 * (a * d1) + b * d0 * (b * d0), g * h, g * d1 * (g * d1) + h * d0 * (h * d0));
  }

  lemma Scaled(r0: int, r1: int, e: int, d0: int, d1: int)
    ensures var g, h := r0 * e, r1 * e;
      g * h * (g * d1 * (g * d1) + h * d0 * (h * d0)) == e * r0 * r1 * (r0 * d1 * (r0 * d1) + r1 * d0 * (r1 * d0)) * (e * e * e)
  {
    var x, y := r0 * d1, r1 * d0;
    SwapLast(r0, e, d1);
    SwapLast(r1, e, d0);
    CommonScaleOut(r0, r1, x, y, e);
  }

  lemma SwapLast(a: int, b: int, c: int)
    ensures a * b * c == a * c * b
  {
  }

  lemma CommonScaleOut(r0: int, r1: int, x: int, y: int, e: int)
    ensures r0 * e * (r1 * e) * (x * e * (x * e) + y * e * (y * e)) == e * r0 * r1 * (x * x + y * y) * (e * e * e)
  {
    Swap(r0, e, r1, e);
    Swap(x, e, x, e);
    Swap(y, e, y, e);
    Distribute(x * x, y * y, e * e);
    Swap(r0 * r1, e * e, x * x + y * y, e * e);
    Front(r0 * r1, x * x + y * y, e);
    Reassociate3(e, r0, r1);
  }

  lemma Front(a: int, b: int, e: int)
    ensures a * b * (e * e * (e * e)) == e * a * b * (e * e * e)
  {
    assert e * e * (e * e) == e * (e * e * e);
    Swap(a * b, e, 1, e * e * e);
    assert a * b * (e * (e * e * e)) == a * b * e * (e * e * e);
    assert a * b * e == e * a * b;
  }

  // ----- quotes -----

  // A stable quote pays the distance from the output reserve to a root of the polynomial: with the new
  // input reserve x it reaches the invariant at root, and one below root it does not exceed the
  // invariant, up to the loss of the rounded curve.
  lemma StableQuoteIsRoot(p: Pool, amount: nat, tokenIn: Token) returns (x: nat, root: int)
    requires Valid(p) && p.stable && GetOutputAmount(p, amount, tokenIn).Success?
    ensures
      var out := GetOutputAmount(p, amount, tokenIn).value.0;
      var tokenOut := OtherToken(p, tokenIn);
      var y := Normalise(OutputReserve(p, tokenIn), tokenOut);
      && x == Normalise(InputReserve(p, tokenIn), tokenIn) + Normalise(AfterFee(amount, p.fee), tokenIn)
      && root <= y && out == (y - root) * Pow10(tokenOut.decimals) / 1_000_000_000_000_000_000
    ensures
      var k := K(p, p.reserve0, p.reserve1);
      && (0 < k ==> 1 <= root)
      && (0 <= root ==>
           k * 1_000_000_000_000_000_000_000_000_000_000_000_000_000_000_000_000_000_000 <= x * root * (x * x + root * root))
      && (1 <= root ==>
           x * (root - 1) * (x * x + (root - 1) * (root - 1))
             < (k + 1) * 1_000_000_000_000_000_000_000_000_000_000_000_000_000_000_000_000_000_000
               + ((x + root - 1) * (x + root - 1) + 2_000_000_000_000_000_000) * 1_000_000_000_000_000_000)
  {
    hide F, K, Normalise, AfterFee, GetStableAmountOut, Pow10;
    QuoteMoves(p, amount, tokenIn);
    root := StableOutput(p, AfterFee(amount, p.fee), tokenIn);
    x := Normalise(InputReserve(p, tokenIn), tokenIn) + Normalise(AfterFee(amount, p.fee), tokenIn);
    var k := K(p, p.reserve0, p.reserve1);
    if root <= 0 { NoRootBelow(x, root); }
    if 0 <= root { AtLeast(x, root, k, E18); }
    if 1 <= root { AtMost(x, root - 1, k, E18); }
  }

  lemma NoRootBelow(x: nat, y: int)
    requires y <= 0
    ensures F(x, y) <= 0
  {
    if y < 0 {
      FNegative(x, y);
    } else {
      TruncNonNegative(0, E18);
    }
  }

  lemma AtLeast(x: nat, y: nat, k: int, e: nat)
    requires e == E18 && k <= F(x, y)
    ensures k * (e * e * e) <= x * y * (x * x + y * y)
  {
    hide F;
    CurveFloors(x, y, e);
    MulMono(0, e, e);
    MulMono(0, e * e, e);
    MulMono(k, F(x, y), e * e * e);
  }

  lemma AtMost(x: nat, y: nat, k: int, e: nat)
    requires e == E18 && F(x, y) <= k
    ensures x * y * (x * x + y * y) < (k + 1) * (e * e * e) + ((x + y) * (x + y) + 2 * e) * e
  {
    hide F;
    CurveFloors(x, y, e);
    MulMono(0, e, e);
    MulMono(0, e * e, e);
    MulMono(F(x, y) + 1, k + 1, e * e * e);
  }

  // No stable swap lowers x^3 y + x y^3 of the reserves, brought to eighteen decimals, by more than the
  // rounded curve can lose.
  lemma PolynomialIsKept(p: Pool, amount: nat, tokenIn: Token)
    requires Valid(p) && p.stable && GetOutputAmount(p, amount, tokenIn).Success?
    ensures
      var next := GetOutputAmount(p, amount, tokenIn).value.1;
      var x, y := Normalise(p.reserve0, p.token0), Normalise(p.reserve1, p.token1);
      var x', y' := Normalise(next.reserve0, next.token0), Normalise(next.reserve1, next.token1);
      x * y * (x * x + y * y)
        < x' * y' * (x' * x' + y' * y')
          + 1_000_000_000_000_000_000_000_000_000_000_000_000_000_000_000_000_000_000
          + ((x + y) * (x + y) + 2_000_000_000_000_000_000) * 1_000_000_000_000_000_000
  {
    var next := GetOutputAmount(p, amount, tokenIn).value.1;
    NextIsStable(p, amount, tokenIn);
    hide F, Normalise, GetOutputAmount, K;
    StableInvariantNeverDecreases(p, amount, tokenIn);
    KIsCurve(p);
    KIsCurve(next);
    Unit54(E18);
    CurveKept(Normalise(p.reserve0, p.token0), Normalise(p.reserve1, p.token1),
              Normalise(next.reserve0, next.token0), Normalise(next.reserve1, next.token1), E18,
              1_000_000_000_000_000_000_000_000_000_000_000_000_000_000_000_000_000_000);
  }

  lemma NextIsStable(p: Pool, amount: nat, tokenIn: Token)
    requires Valid(p) && p.stable && GetOutputAmount(p, amount, tokenIn).Success?
    ensures GetOutputAmount(p, amount, tokenIn).value.1.stable
  {
    hide AfterFee, GetStableAmountOut;
  }

  lemma KIsCurve(p: Pool)
    requires p.stable
    ensures K(p, p.reserve0, p.reserve1) == F(Normalise(p.reserve0, p.token0), Normalise(p.reserve1, p.token1))
  {
    hide F, Normalise;
  }

  lemma Unit54(e: nat)
    requires e == E18
    ensures e * e * e == 1_000_000_000_000_000_000_000_000_000_000_000_000_000_000_000_000_000_000
  {
  }

  lemma CurveKept(x: nat, y: nat, x': nat, y': nat, e: nat, unit: nat)
    requires e == E18 && unit == e * e * e && F(x, y) <= F(x', y')
    ensures x * y * (x * x + y * y) < x' * y' * (x' * x' + y' * y') + unit + ((x + y) * (x + y) + 2 * e) * e
  {
    hide F;
    AtMost(x, y, F(x', y'), e);
    AtLeast(x', y', F(x', y'), e);
    OneMore(F(x', y'), unit);
  }

  lemma OneMore(k: int, unit: int)
    ensures (k + 1) * unit == k * unit + unit
  {
  }

  // A stable quote has no answer exactly if 255 rounds from the output reserve do not end.
  lemma StableQuoteFails(p: Pool, amountIn: nat, tokenIn: Token)
    requires p.token0 != p.token1 && Involves(p, tokenIn) && p.stable
    ensures
      var x := Normalise(InputReserve(p, tokenIn), tokenIn) + Normalise(amountIn, tokenIn);
      var rounds := GetYWithin(x, K(p, p.reserve0, p.reserve1), Normalise(OutputReserve(p, tokenIn), OtherToken(p, tokenIn)), 255);
      rounds.Failure? <==> GetStableAmountOut(p, amountIn, tokenIn).Failure?
  {
    hide F, Normalise, GetYWithin;
  }

  // The fee that is withheld is its ten-thousandths of the input, rounded down.
  lemma FeeWithheld(amount: nat, fee: nat)
    requires fee < 10_000
    ensures
      var withheld := amount - AfterFee(amount, fee);
      withheld * 10_000 <= amount * fee < (withheld + 1) * 10_000
  {
    DivBounds(amount * fee, 10_000);
  }

  // When a pool quotes, and what: a volatile pool fails exactly if it does not involve the token, has an
  // empty reserve or would pay nothing, and no pool ever pays nothing or its whole reserve.
  lemma QuoteWithinReserve(p: Pool, amount: nat, tokenIn: Token)
    requires Valid(p)
    ensures
      var r := GetOutputAmount(p, amount, tokenIn);
      && (r.Success? ==> 0 < r.value.0 < OutputReserve(p, tokenIn))
      && (tokenIn != p.token0 && tokenIn != p.token1 ==> r == Failure("TOKEN"))
      && (Involves(p, tokenIn) && (p.reserve0 == 0 || p.reserve1 == 0) ==> r == Failure("INSUFFICIENT_RESERVES"))
      && (Involves(p, tokenIn) && p.reserve0 > 0 && p.reserve1 > 0 && !p.stable ==>
           var a := AfterFee(amount, p.fee);
           if a * OutputReserve(p, tokenIn) < InputReserve(p, tokenIn) + a then r == Failure("INSUFFICIENT_INPUT_AMOUNT")
           else r.Success?)
  {
    hide AfterFee, GetStableAmountOut;
    if Involves(p, tokenIn) && p.reserve0 > 0 && p.reserve1 > 0 && !p.stable {
      var a, rIn, rOut := AfterFee(amount, p.fee), InputReserve(p, tokenIn), OutputReserve(p, tokenIn);
      FloorGalois(a * rOut, rIn + a, 1);
      FloorGalois(a * rOut, rIn + a, 0);
      FloorGalois(a * rOut, rIn + a, rOut);
      Short(a, rIn, rOut);
    }
  }

  lemma Short(a: nat, rIn: nat, rOut: nat)
    requires 0 < rIn && 0 < rOut
    ensures a * rOut < rOut * (rIn + a)
  {
    MulStrict(0, rIn, rOut);
    assert rOut * (rIn + a) == rIn * rOut + a * rOut;
  }
}
