// Solidly pools: constant product (volatile) and the x^3 y + x y^3 invariant (stable), with every
// integer division in the order it is performed.
module V2Pool {
  import opened Arith
  import opened Results

  const FEE_DENOMINATOR: nat := 10_000
  const E18: nat := 1_000_000_000_000_000_000

  datatype Token = Token(address: nat, decimals: nat)

  datatype Pool = Pool(token0: Token, token1: Token, reserve0: nat, reserve1: nat, stable: bool, fee: nat)

  // What the constructor establishes.
  predicate Valid(p: Pool) {
    p.fee < FEE_DENOMINATOR && p.token0 != p.token1
  }

  function Pow10(n: nat): (p: nat)
    ensures 0 < p
  {
    if n == 0 then 1 else 10 * Pow10(n - 1)
  }

  // JSBI division rounds towards zero.
  function TruncDiv(a: int, b: int): int
    requires b > 0
  {
    if a >= 0 then a / b else -(-a / b)
  }

  function Normalise(amount: nat, token: Token): (n: nat) {
    FloorGalois(amount * E18, Pow10(token.decimals), 0);
    amount * E18 / Pow10(token.decimals)
  }

  // ----- the stable curve -----

  function F(x0: int, y: int): int {
    var a := TruncDiv(x0 * y, E18);
    var b := TruncDiv(x0 * x0, E18) + TruncDiv(y * y, E18);
    TruncDiv(a * b, E18)
  }

  lemma TruncNonNegative(a: int, b: int)
    requires a >= 0 && b > 0
    ensures 0 <= TruncDiv(a, b) == a / b
  {
    FloorGalois(a, b, 0);
  }

  lemma Square(y: int)
    ensures 0 <= y * y && 0 <= TruncDiv(y * y, E18)
  {
    TruncNonNegative(y * y, E18);
  }

  function D(x0: nat, y: int): (d: nat) {
    Square(y);
    Square(x0);
    var v := TruncDiv(y * y, E18);
    var u := TruncDiv(x0 * x0, E18);
    MulMono(0, v, 3 * x0);
    MulMono(0, u, x0);
    TruncNonNegative(3 * x0 * v, E18);
    TruncNonNegative(u * x0, E18);
    TruncDiv(3 * x0 * v, E18) + TruncDiv(u * x0, E18)
  }

  function K(p: Pool, x: nat, y: nat): int {
    if !p.stable then x * y
    else F(Normalise(x, p.token0), Normalise(y, p.token1))
  }

  // Newton's method as a value; n rounds are left. Dividing by a vanishing derivative throws, and
  // so does running out of rounds.
  function GetYWithin(x0: nat, xy: int, y: int, n: nat): Result<int>
    decreases n
  {
    if n == 0 then Failure("!y")
    else
      var k := F(x0, y);
      var d := D(x0, y);
      if d == 0 then Failure("Division by zero")
      else if k < xy then
        var dy := TruncDiv((xy - k) * E18, d);
        if dy != 0 then GetYWithin(x0, xy, y + dy, n - 1)
        else if F(x0, y + 1) > xy then Success(y + 1)
        else GetYWithin(x0, xy, y + 1, n - 1)
      else
        var dy := TruncDiv((k - xy) * E18, d);
        if dy != 0 then GetYWithin(x0, xy, y - dy, n - 1)
        else if k == xy || F(x0, y - 1) < xy then Success(y)
        else GetYWithin(x0, xy, y - 1, n - 1)
  }

  // The loop itself.
  method GetY(x0: nat, xy: int, start: int) returns (r: Result<int>)
    ensures r == GetYWithin(x0, xy, start, 255)
  {
    var y := start;
    hide F, D;
    for i := 0 to 255
      invariant GetYWithin(x0, xy, y, 255 - i) == GetYWithin(x0, xy, start, 255)
    {
      var k := F(x0, y);
      var d := D(x0, y);
      if d == 0 {
        return Failure("Division by zero");
      }
      if k < xy {
        var dy := TruncDiv((xy - k) * E18, d);
        if dy == 0 {
          if k == xy {
            return Success(y);
          }
          if F(x0, y + 1) > xy {
            return Success(y + 1);
          }
          dy := 1;
        }
        y := y + dy;
      } else {
        var dy := TruncDiv((k - xy) * E18, d);
        if dy == 0 {
          if k == xy || F(x0, y - 1) < xy {
            return Success(y);
          }
          dy := 1;
        }
        y := y - dy;
      }
    }
    r := Failure("!y");
  }

  // ----- the curve is monotone -----

  lemma TruncMono(a: int, b: int, d: int)
    requires 0 <= a <= b && d > 0
    ensures 0 <= TruncDiv(a, d) <= TruncDiv(b, d)
  {
    TruncNonNegative(a, d);
    FloorMono(a, b, d);
  }

  lemma ProductMono(a: int, b: int, c: int, d: int)
    requires 0 <= a <= c && 0 <= b <= d
    ensures 0 <= a * b <= c * d
  {
    MulMono(a, c, b);
    MulMono(b, d, c);
    MulMono(0, a, b);
  }

  // On non-negative arguments the curve grows with both coordinates.
  lemma FMono(x: int, y: int, x': int, y': int)
    requires 0 <= x <= x' && 0 <= y <= y'
    ensures 0 <= F(x, y) <= F(x', y')
  {
    ProductMono(x, y, x', y');
    TruncMono(x * y, x' * y', E18);
    ProductMono(x, x, x', x');
    TruncMono(x * x, x' * x', E18);
    ProductMono(y, y, y', y');
    TruncMono(y * y, y' * y', E18);
    var a, a' := TruncDiv(x * y, E18), TruncDiv(x' * y', E18);
    var b, b' := TruncDiv(x * x, E18) + TruncDiv(y * y, E18), TruncDiv(x' * x', E18) + TruncDiv(y' * y', E18);
    ProductMono(a, b, a', b');
    TruncMono(a * b, a' * b', E18);
  }

  // Below zero it is not positive.
  lemma FNegative(x: int, y: int)
    requires 0 <= x && y < 0
    ensures F(x, y) <= 0
  {
    MulMono(y, 0, x);
    TruncNonNegative(-(x * y), E18);
    Square(x);
    Square(y);
    var a, b := TruncDiv(x * y, E18), TruncDiv(x * x, E18) + TruncDiv(y * y, E18);
    assert a <= 0;
    MulMono(a, 0, b);
    if a * b < 0 {
      TruncNonNegative(-(a * b), E18);
    }
  }

  lemma FSymmetric(x: int, y: int)
    ensures F(x, y) == F(y, x)
  {
    assert x * y == y * x;
  }

  // No smaller argument exceeds a bound that y meets.
  lemma BelowBound(x0: nat, xy: int, y: int, y': int)
    requires F(x0, y) <= xy && 0 <= xy && y' <= y
    ensures F(x0, y') <= xy
  {
    if y' < 0 {
      FNegative(x0, y');
    } else {
      FMono(x0, y', x0, y);
    }
  }

  // Whatever path the iteration took, its result brackets the root: the curve reaches xy at r and
  // exceeds it nowhere below r.
  lemma {:induction false} GetYBrackets(x0: nat, xy: int, y: int, n: nat, y': int)
    requires 0 <= xy && GetYWithin(x0, xy, y, n).Success?
    ensures var r := GetYWithin(x0, xy, y, n).value;
            xy <= F(x0, r) && (y' < r ==> F(x0, y') <= xy)
    decreases n
  {
    var k, d := F(x0, y), D(x0, y);
    hide F, D;
    var dy := TruncDiv((if k < xy then xy - k else k - xy) * E18, d);
    var next := if k < xy then (if dy == 0 then y + 1 else y + dy) else (if dy == 0 then y - 1 else y - dy);
    if k < xy && dy == 0 && F(x0, y + 1) > xy {
      if y' <= y {
        BelowBound(x0, xy, y, y');
      }
    } else if k >= xy && dy == 0 && (k == xy || F(x0, y - 1) < xy) {
      if y' < y {
        if k == xy {
          BelowBound(x0, xy, y, y');
        } else {
          BelowBound(x0, xy, y - 1, y');
        }
      }
    } else {
      GetYBrackets(x0, xy, next, n - 1, y');
    }
  }

  // Started on or above the curve value, the result does not exceed the start.
  lemma GetYNotAbove(x0: nat, xy: int, y: nat, n: nat)
    requires 0 <= xy <= F(x0, y) && GetYWithin(x0, xy, y, n).Success?
    ensures GetYWithin(x0, xy, y, n).value <= y
  {
    hide F, D;
    var r := GetYWithin(x0, xy, y, n).value;
    if y < r {
      GetYBrackets(x0, xy, y, n, y);
    }
  }

  // ----- quotes -----

  function InputReserve(p: Pool, tokenIn: Token): nat {
    if tokenIn == p.token0 then p.reserve0 else p.reserve1
  }

  function OutputReserve(p: Pool, tokenIn: Token): nat {
    if tokenIn == p.token0 then p.reserve1 else p.reserve0
  }

  predicate Involves(p: Pool, token: Token) {
    token == p.token0 || token == p.token1
  }

  // The other token of a pair.
  function OtherToken(p: Pool, token: Token): Token {
    if token == p.token0 then p.token1 else p.token0
  }

  // The input that stays in the pool: the fee is withheld, rounded down.
  function AfterFee(amount: nat, fee: nat): (r: nat)
    requires fee < FEE_DENOMINATOR
    ensures r <= amount
  {
    FeeBelow(amount, fee);
    amount - amount * fee / FEE_DENOMINATOR
  }

  lemma FeeBelow(amount: nat, fee: nat)
    requires fee < FEE_DENOMINATOR
    ensures 0 <= amount * fee / FEE_DENOMINATOR <= amount
  {
    MulMono(fee, FEE_DENOMINATOR, amount);
    FloorGalois(amount * fee, FEE_DENOMINATOR, 0);
    FloorMono(amount * fee, amount * FEE_DENOMINATOR, FEE_DENOMINATOR);
    DivUnique(amount * FEE_DENOMINATOR, FEE_DENOMINATOR, amount);
  }

  function GetStableAmountOut(p: Pool, amountIn: nat, tokenIn: Token): Result<int> {
    var isToken0 := tokenIn == p.token0;
    var xy := K(p, p.reserve0, p.reserve1);
    var n0, n1 := Normalise(p.reserve0, p.token0), Normalise(p.reserve1, p.token1);
    var (reserveA, reserveB) := if isToken0 then (n0, n1) else (n1, n0);
    var normalizedAmountIn := Normalise(amountIn, if isToken0 then p.token0 else p.token1);
    match GetYWithin(normalizedAmountIn + reserveA, xy, reserveB, 255)
    case Failure(error) => Failure(error)
    case Success(root) =>
      var y := reserveB - root;
      Success(TruncDiv(y * Pow10((if isToken0 then p.token1 else p.token0).decimals), E18))
  }

  function VolatileAmountOut(amountIn: nat, reserveIn: nat, reserveOut: nat): (out: int)
    requires 0 < reserveIn
  {
    amountIn * reserveOut / (reserveIn + amountIn)
  }

  function AmountOut(p: Pool, afterFee: nat, tokenIn: Token): Result<int>
    requires 0 < InputReserve(p, tokenIn)
  {
    if p.stable then GetStableAmountOut(p, afterFee, tokenIn)
    else Success(VolatileAmountOut(afterFee, InputReserve(p, tokenIn), OutputReserve(p, tokenIn)))
  }

  // The pool with tokenIn's reserve raised and the other reserve lowered.
  function Moved(p: Pool, tokenIn: Token, added: nat, removed: nat): Pool
    requires removed <= OutputReserve(p, tokenIn)
  {
    if tokenIn == p.token0 then p.(reserve0 := p.reserve0 + added, reserve1 := p.reserve1 - removed)
    else p.(reserve1 := p.reserve1 + added, reserve0 := p.reserve0 - removed)
  }

  function GetOutputAmount(p: Pool, amount: nat, tokenIn: Token): Result<(nat, Pool)>
    requires Valid(p)
  {
    if !Involves(p, tokenIn) then Failure("TOKEN")
    else if p.reserve0 == 0 || p.reserve1 == 0 then Failure("INSUFFICIENT_RESERVES")
    else
      var afterFee := AfterFee(amount, p.fee);
      match AmountOut(p, afterFee, tokenIn)
      case Failure(error) => Failure(error)
      case Success(out) =>
        if out == 0 then Failure("INSUFFICIENT_INPUT_AMOUNT")
        else if OutputReserve(p, tokenIn) <= out then Failure("INSUFFICIENT_RESERVES")
        else
          OutputNonNegative(p, afterFee, tokenIn);
          Success((out, Moved(p, tokenIn, afterFee, out)))
  }

  // An output is never negative: the stable root does not exceed the reserve it started from.
  lemma OutputNonNegative(p: Pool, afterFee: nat, tokenIn: Token)
    requires Valid(p) && Involves(p, tokenIn) && 0 < InputReserve(p, tokenIn)
    requires AmountOut(p, afterFee, tokenIn).Success?
    ensures 0 <= AmountOut(p, afterFee, tokenIn).value
  {
    if p.stable {
      var root := StableOutput(p, afterFee, tokenIn);
    } else {
      FloorGalois(afterFee * OutputReserve(p, tokenIn), InputReserve(p, tokenIn) + afterFee, 0);
    }
  }

  // The stable output in terms of the root: it is the normalised difference, scaled back and
  // rounded down, and the root is the least argument at which the curve reaches the invariant, or
  // a greater one at which it still does not exceed it.
  lemma StableOutput(p: Pool, afterFee: nat, tokenIn: Token) returns (root: int)
    requires p.token0 != p.token1 && Involves(p, tokenIn) && p.stable
    requires GetStableAmountOut(p, afterFee, tokenIn).Success?
    ensures var out := GetStableAmountOut(p, afterFee, tokenIn).value;
            var tokenOut := OtherToken(p, tokenIn);
            var x, y := Normalise(InputReserve(p, tokenIn), tokenIn), Normalise(OutputReserve(p, tokenIn), tokenOut);
            && 0 <= out && root <= y && out == (y - root) * Pow10(tokenOut.decimals) / E18
            && F(x + Normalise(afterFee, tokenIn), root - 1) <= K(p, p.reserve0, p.reserve1)
            && K(p, p.reserve0, p.reserve1) <= F(x + Normalise(afterFee, tokenIn), root)
    ensures 0 <= K(p, p.reserve0, p.reserve1)
  {
    var tokenOut := OtherToken(p, tokenIn);
    var x, y := Normalise(InputReserve(p, tokenIn), tokenIn), Normalise(OutputReserve(p, tokenIn), tokenOut);
    var xy, x0 := K(p, p.reserve0, p.reserve1), x + Normalise(afterFee, tokenIn);
    hide F, Normalise, Pow10, GetYWithin;
    FSymmetric(x, y);
    assert xy == F(x, y);
    FMono(x, y, x0, y);
    root := GetYWithin(x0, xy, y, 255).value;
    GetYNotAbove(x0, xy, y, 255);
    GetYBrackets(x0, xy, y, 255, root - 1);
    MulMono(0, y - root, Pow10(tokenOut.decimals));
    TruncNonNegative((y - root) * Pow10(tokenOut.decimals), E18);
  }

  // ----- the stable invariant -----

  // Normalising a sum loses no more than normalising its parts.
  lemma NormaliseSum(a: nat, b: nat, token: Token)
    ensures Normalise(a, token) + Normalise(b, token) <= Normalise(a + b, token)
  {
    var d := Pow10(token.decimals);
    DivBounds(a * E18, d);
    DivBounds(b * E18, d);
    assert (a + b) * E18 == a * E18 + b * E18;
    assert (a * E18 / d + b * E18 / d) * d == a * E18 / d * d + b * E18 / d * d;
    FloorGalois((a + b) * E18, d, a * E18 / d + b * E18 / d);
  }

  // Paying out an amount scaled back from a normalised difference leaves at least the root.
  lemma NormaliseRest(reserve: nat, root: int, out: nat, token: Token)
    requires root <= Normalise(reserve, token) && out <= reserve
    requires out == (Normalise(reserve, token) - root) * Pow10(token.decimals) / E18
    ensures root <= Normalise(reserve - out, token)
  {
    var d, n := Pow10(token.decimals), Normalise(reserve, token);
    DivBounds(reserve * E18, d);
    DivBounds((n - root) * d, E18);
    assert (reserve - out) * E18 == reserve * E18 - out * E18;
    assert (n - root) * d == n * d - root * d;
    FloorGalois((reserve - out) * E18, d, root);
  }

  // A successful quote moves the reserves by the input after fee and the output.
  lemma QuoteMoves(p: Pool, amount: nat, tokenIn: Token)
    requires Valid(p) && p.stable && GetOutputAmount(p, amount, tokenIn).Success?
    ensures var (out, next) := GetOutputAmount(p, amount, tokenIn).value;
            && Involves(p, tokenIn) && GetStableAmountOut(p, AfterFee(amount, p.fee), tokenIn) == Success(out)
            && out <= OutputReserve(p, tokenIn) && next == Moved(p, tokenIn, AfterFee(amount, p.fee), out)
  {
    hide GetStableAmountOut, AfterFee;
  }

  lemma MovedReserves(p: Pool, tokenIn: Token, added: nat, removed: nat)
    requires Involves(p, tokenIn) && p.token0 != p.token1 && removed <= OutputReserve(p, tokenIn)
    ensures var next := Moved(p, tokenIn, added, removed);
            && InputReserve(next, tokenIn) == InputReserve(p, tokenIn) + added
            && OutputReserve(next, tokenIn) == OutputReserve(p, tokenIn) - removed
            && OtherToken(next, tokenIn) == OtherToken(p, tokenIn)
            && next.stable == p.stable && next.token0 == p.token0 && next.token1 == p.token1
  {
  }

  // For every stable pool, token order, pair of decimals and input that returns an output, the
  // invariant of the next reserves is at least the invariant before the swap.
  lemma StableInvariantNeverDecreases(p: Pool, amount: nat, tokenIn: Token)
    requires Valid(p) && p.stable && GetOutputAmount(p, amount, tokenIn).Success?
    ensures var next := GetOutputAmount(p, amount, tokenIn).value.1;
            K(p, p.reserve0, p.reserve1) <= K(next, next.reserve0, next.reserve1)
  {
    hide F, Normalise, Pow10, GetYWithin, AfterFee, GetStableAmountOut, K, GetOutputAmount, Moved, InputReserve, OutputReserve;
    QuoteMoves(p, amount, tokenIn);
    var (out, next) := GetOutputAmount(p, amount, tokenIn).value;
    var afterFee, tokenOut := AfterFee(amount, p.fee), OtherToken(p, tokenIn);
    var rIn, rOut := InputReserve(p, tokenIn), OutputReserve(p, tokenIn);
    MovedReserves(p, tokenIn, afterFee, out);
    var root := StableOutput(p, afterFee, tokenIn);
    OrderedK(p, tokenIn, rIn, rOut);
    OrderedK(next, tokenIn, rIn + afterFee, rOut - out);
    NormaliseSum(rIn, afterFee, tokenIn);
    NormaliseRest(rOut, root, out, tokenOut);
    CurveGrows(Normalise(rIn, tokenIn) + Normalise(afterFee, tokenIn), root,
               Normalise(rIn + afterFee, tokenIn), Normalise(rOut - out, tokenOut));
  }

  // The invariant does not depend on which token is the input.
  lemma OrderedK(p: Pool, tokenIn: Token, rIn: nat, rOut: nat)
    requires p.stable && Involves(p, tokenIn) && p.token0 != p.token1
    requires rIn == InputReserve(p, tokenIn) && rOut == OutputReserve(p, tokenIn)
    ensures K(p, p.reserve0, p.reserve1) == F(Normalise(rIn, tokenIn), Normalise(rOut, OtherToken(p, tokenIn)))
  {
    hide F, Normalise;
    FSymmetric(Normalise(p.reserve0, p.token0), Normalise(p.reserve1, p.token1));
  }

  lemma CurveGrows(x: nat, root: int, x': nat, y': nat)
    requires x <= x' && root <= y' && 0 <= F(x, root)
    ensures F(x, root) <= F(x', y')
  {
    hide F;
    if root < 0 {
      FNegative(x, root);
      FMono(x', y', x', y');
    } else {
      FMono(x, root, x', y');
    }
  }
}
