// Integer arithmetic shared by the pool mathematics: rounded division, powers of two and
// repeated squaring.
module Arith {

  // Quotient rounded towards plus infinity.
  function CeilDiv(x: nat, d: nat): (q: nat)
    requires d > 0
  {
    (x + d - 1) / d
  }

  lemma MulMono(a: int, b: int, c: int)
    requires a <= b && 0 <= c
    ensures a * c <= b * c
  {
  }

  lemma MulStrict(a: int, b: int, c: int)
    requires a < b && 0 < c
    ensures a * c < b * c
  {
  }

  // Dividing by a positive number reflects the order.
  lemma MulCancel(a: int, b: int, c: int)
    requires 0 < c && a * c <= b * c
    ensures a <= b
  {
    if a > b {
      MulStrict(b, a, c);
    }
  }

  lemma DivBounds(x: int, d: int)
    requires d > 0
    ensures x / d * d <= x < x / d * d + d
  {
  }

  // Floor division is the upper adjoint of multiplication.
  lemma FloorGalois(x: int, d: int, k: int)
    requires d > 0
    ensures k <= x / d <==> k * d <= x
  {
    DivBounds(x, d);
    if k <= x / d {
      MulMono(k, x / d, d);
    } else {
      MulMono(x / d + 1, k, d);
    }
  }

  // Ceiling division is the lower adjoint of multiplication.
  lemma CeilGalois(x: nat, d: nat, k: nat)
    requires d > 0
    ensures CeilDiv(x, d) <= k <==> x <= k * d
  {
    FloorGalois(x + d - 1, d, k + 1);
    assert (k + 1) * d == k * d + d;
  }

  // A quotient is determined by the interval the dividend lies in.
  lemma DivUnique(x: int, d: int, q: int)
    requires d > 0 && q * d <= x < q * d + d
    ensures x / d == q
  {
    FloorGalois(x, d, q);
    FloorGalois(x, d, q + 1);
  }

  lemma FloorMono(x: int, y: int, d: int)
    requires d > 0 && x <= y
    ensures x / d <= y / d
  {
    DivBounds(x, d);
    FloorGalois(y, d, x / d);
  }

  function Pow2(n: nat): (p: nat)
    ensures p > 0
  {
    if n == 0 then 1 else 2 * Pow2(n - 1)
  }

  lemma {:induction false} Pow2Add(a: nat, b: nat)
    ensures Pow2(a + b) == Pow2(a) * Pow2(b)
  {
    if a > 0 {
      Pow2Add(a - 1, b);
    }
  }

  lemma {:induction false} Pow2Mono(a: nat, b: nat)
    requires a <= b
    ensures Pow2(a) <= Pow2(b)
  {
    Pow2Add(a, b - a);
    MulMono(1, Pow2(b - a), Pow2(a));
  }

  lemma Pow2Strict(a: nat, b: nat)
    requires a < b
    ensures 2 * Pow2(a) <= Pow2(b)
  {
    Pow2Mono(a + 1, b);
  }

  lemma Pow2Literals()
    ensures Pow2(7) == 0x80 && Pow2(14) == 0x4000 && Pow2(18) == 0x4_0000 && Pow2(20) == 0x10_0000
    ensures Pow2(32) == 0x1_0000_0000 && Pow2(64) == 0x1_0000_0000_0000_0000
    ensures Pow2(127) == 0x8000_0000_0000_0000_0000_0000_0000_0000
    ensures Pow2(128) == 0x1_0000_0000_0000_0000_0000_0000_0000_0000
  {
    assert Pow2(4) == 16 && Pow2(7) == 0x80;
    Pow2Add(7, 7);
    Pow2Add(14, 4);
    assert Pow2(20) == 2 * Pow2(19) == 4 * Pow2(18);
    Pow2Add(14, 18);
    Pow2Add(32, 32);
    Pow2Add(64, 64);
  }

  // x raised to the power 2^k, by repeated squaring.
  function Sq(x: nat, k: nat): nat
    decreases k
  {
    if k == 0 then x else Sq(x * x, k - 1)
  }

  lemma {:induction false} SqMul(x: nat, y: nat, k: nat)
    ensures Sq(x * y, k) == Sq(x, k) * Sq(y, k)
    decreases k
  {
    if k > 0 {
      assert (x * y) * (x * y) == (x * x) * (y * y);
      SqMul(x * x, y * y, k - 1);
    }
  }

  lemma SqOuter(x: nat, k: nat)
    ensures Sq(x, k + 1) == Sq(x, k) * Sq(x, k)
  {
    SqMul(x, x, k);
  }

  lemma {:induction false} SqCompose(x: nat, j: nat, k: nat)
    ensures Sq(x, j + k) == Sq(Sq(x, j), k)
    decreases j
  {
    if j > 0 {
      SqCompose(x * x, j - 1, k);
    }
  }

  lemma {:induction false} SqMono(x: nat, y: nat, k: nat)
    requires x <= y
    ensures Sq(x, k) <= Sq(y, k)
    decreases k
  {
    if k > 0 {
      MulMono(x, y, x);
      MulMono(x, y, y);
      SqMono(x * x, y * y, k - 1);
    }
  }

  lemma {:induction false} SqStrict(x: nat, y: nat, k: nat)
    requires x < y
    ensures Sq(x, k) < Sq(y, k)
    decreases k
  {
    if k > 0 {
      MulMono(x, y, x);
      MulStrict(x, y, y);
      SqStrict(x * x, y * y, k - 1);
    }
  }

  lemma {:induction false} SqPositive(x: nat, k: nat)
    requires x > 0
    ensures Sq(x, k) > 0
    decreases k
  {
    if k > 0 {
      MulStrict(0, x, x);
      SqPositive(x * x, k - 1);
    }
  }

  lemma {:induction false} SqPow2(u: nat, k: nat)
    ensures Sq(Pow2(u), k) == Pow2(u * Pow2(k))
    decreases k
  {
    if k == 0 {
      assert u * Pow2(0) == u;
    } else {
      Pow2Add(u, u);
      SqPow2(u + u, k - 1);
      Doubled(u, Pow2(k - 1));
    }
  }

  lemma Doubled(u: int, p: int)
    ensures (u + u) * p == u * (2 * p)
  {
  }

  // (1 + e/x)^N <= 1 / (1 - N e / x) for N = 2^k, cleared of denominators.
  lemma {:induction false} SqPerturb(x: nat, e: nat, k: nat)
    requires e * Pow2(k) <= x && x > 0
    ensures Sq(x + e, k) * (x - e * Pow2(k)) <= x * Sq(x, k)
    decreases k
  {
    if k == 0 {
      assert e * Pow2(0) == e;
      DifferenceOfSquares(x, e);
    } else {
      var h := e * Pow2(k - 1);
      Doubled(e, Pow2(k - 1));
      assert e * Pow2(k) == 2 * h;
      SqPerturb(x, e, k - 1);
      SqOuter(x + e, k - 1);
      SqOuter(x, k - 1);
      PerturbStep(Sq(x + e, k - 1), Sq(x, k - 1), x, h);
    }
  }

  lemma DifferenceOfSquares(x: int, e: int)
    ensures (x + e) * (x - e) <= x * x
  {
    assert (x + e) * (x - e) == x * x - e * e;
    assert 0 <= e * e;
  }

  lemma PerturbStep(s: nat, t: nat, x: nat, h: nat)
    requires x > 0 && 2 * h <= x && s * (x - h) <= x * t
    ensures (s * s) * (x - 2 * h) <= x * (t * t)
  {
    SquareBoth(s * (x - h), x * t);
    SquareOfProduct(s, x - h);
    SquareOfProduct(x, t);
    SquareOfDifference(x, h);
    MulMono((x - 2 * h) * x, (x - h) * (x - h), s * s);
    Reassociate(s * s, x - 2 * h, x);
    Reassociate(t * t, x, x);
    MulCancel((s * s) * (x - 2 * h), x * (t * t), x);
  }

  lemma SquareOfProduct(a: int, b: int)
    ensures (a * b) * (a * b) == (b * b) * (a * a) == (a * a) * (b * b)
  {
    assert (a * b) * (a * b) == a * (b * (a * b));
    assert b * (a * b) == a * (b * b);
  }

  lemma SquareOfDifference(x: int, h: int)
    ensures (x - 2 * h) * x <= (x - h) * (x - h)
  {
    assert (x - h) * (x - h) == x * x - 2 * (h * x) + h * h;
    assert (x - 2 * h) * x == x * x - 2 * (h * x);
    assert 0 <= h * h;
  }

  lemma Reassociate(a: int, b: int, c: int)
    ensures (b * c) * a == (a * b) * c == (b * a) * c == a * (b * c) == (a * c) * b
  {
  }

  lemma SquareBoth(a: nat, b: nat)
    requires a <= b
    ensures a * a <= b * b
  {
    MulMono(a, b, a);
    MulMono(a, b, b);
  }

  // A relative change below 2^-(k+1) at most doubles a 2^k-th power.
  lemma SqPerturbHalf(x: nat, e: nat, k: nat)
    requires x > 0 && e * Pow2(k + 1) <= x
    ensures Sq(x + e, k) <= 2 * Sq(x, k)
  {
    var h := e * Pow2(k);
    Doubled(e, Pow2(k));
    assert e * Pow2(k + 1) == 2 * h;
    SqPerturb(x, e, k);
    HalfCancel(Sq(x + e, k), Sq(x, k), x, h);
  }

  lemma HalfCancel(s: nat, t: nat, x: nat, h: nat)
    requires x > 0 && 2 * h <= x && s * (x - h) <= x * t
    ensures s <= 2 * t
  {
    MulMono(x, 2 * (x - h), s);
    assert (2 * (x - h)) * s == 2 * (s * (x - h));
    assert (2 * t) * x == 2 * (x * t);
    MulCancel(s, 2 * t, x);
  }
}
