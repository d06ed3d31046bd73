// Correctness of the logarithm behind getTickAtSqrtRatio. All comparisons of logarithms are
// stated between 2^k-th powers (Sq) and powers of two, so no real numbers are involved.
module TickLog {
  import opened Arith
  import opened TickMath

  const W: nat := 0x8000_0000_0000_0000_0000_0000_0000_0000 // 2^127

  // ----- the fixed point logarithm loop -----

  // One round: square a mantissa in [2^127, 2^128), extract the carry bit, renormalise.
  function Carry(r: nat): nat {
    r * r / W / Q128
  }

  function Next(r: nat): nat {
    FloorGalois(r * r, W, 0);
    FloorGalois(r * r / W, Pow2(Carry(r)), 0);
    r * r / W / Pow2(Carry(r))
  }

  // The k fraction bits the loop extracts from mantissa r, most significant first.
  function LogBits(r: nat, k: nat): nat
    decreases k
  {
    if k == 0 then 0 else Carry(r) * Pow2(k - 1) + LogBits(Next(r), k - 1)
  }

  // A round keeps the mantissa normalised and its carry is a single bit; what it drops is
  // less than one unit of the next mantissa.
  lemma Round(r: nat)
    requires W <= r < Q128
    ensures Carry(r) <= 1 && W <= Next(r) < Q128
    ensures Next(r) * Pow2(Carry(r)) * W <= r * r < (Next(r) + 1) * Pow2(Carry(r)) * W
  {
    var p := r * r / W;
    DivBounds(r * r, W);
    SquareBoth(W, r);
    SquareBoth(r, Q128 - 1);
    FloorGalois(r * r, W, W);
    FloorGalois(r * r, W, 2 * Q128);
    assert Pow2(0) == 1 && Pow2(1) == 2;
    if p < Q128 {
      DivUnique(p, Q128, 0);
    } else {
      DivUnique(p, Q128, 1);
      DivBounds(p, 2);
    }
  }

  // The extracted bits never overstate the logarithm of r / 2^127.
  lemma {:induction false} LogBitsLower(r: nat, k: nat)
    requires W <= r < Q128
    ensures Pow2(LogBits(r, k)) * Sq(W, k) <= Sq(r, k)
    decreases k
  {
    if k > 0 {
      hide Carry, Next, Sq, W, Q128;
      var f, r1 := Carry(r), Next(r);
      Round(r);
      LogBitsLower(r1, k - 1);
      SqUnfold(r, k);
      SqMono(r1 * Pow2(f) * W, r * r, k - 1);
      SplitPower(r1, f, W, k - 1);
      Pow2Add(f * Pow2(k - 1), LogBits(r1, k - 1));
      SqOuter(W, k - 1);
      LowerChained(Sq(r, k), Sq(r1, k - 1), Pow2(f * Pow2(k - 1)), Sq(W, k - 1), Pow2(LogBits(r1, k - 1)));
    }
  }

  lemma LowerChained(x: nat, y: nat, p: nat, w: nat, q: nat)
    requires y * (p * w) <= x && q * w <= y
    ensures (p * q) * (w * w) <= x
  {
    Regroup(p, q, w);
    MulMono(q * w, y, p * w);
  }

  lemma SplitPower(x: nat, f: nat, w: nat, k: nat)
    ensures Sq(x * Pow2(f) * w, k) == Sq(x, k) * (Pow2(f * Pow2(k)) * Sq(w, k))
  {
    SqMul(x * Pow2(f), w, k);
    SqMul(x, Pow2(f), k);
    SqPow2(f, k);
    Reassociate(Sq(x, k), Pow2(f * Pow2(k)), Sq(w, k));
  }

  lemma Regroup(a: nat, b: nat, c: nat)
    ensures (a * b) * (c * c) == (b * c) * (a * c)
  {
    assert (a * b) * (c * c) == ((a * b) * c) * c;
    assert (b * c) * (a * c) == ((b * c) * a) * c;
    assert (a * b) * c == (b * c) * a;
  }

  // Nor do they understate it by more than one unit: slack s on the mantissa grows at most
  // fourfold a round.
  const B: nat := 0x1_0000_0000_0000_0001_0000_0000_0000_0000 // 2^128 + 2^64

  function Pow4(k: nat): (p: nat)
    ensures 0 < p
  {
    if k == 0 then 1 else 4 * Pow4(k - 1)
  }

  lemma {:induction false} LogBitsUpper(r: nat, s: nat, k: nat)
    requires W <= r < Q128 && (s + 1) * Pow4(k) <= 0x1_0000_0000_0000_0000
    ensures Sq(r + s, k) * W <= Pow2(LogBits(r, k)) * Sq(W, k) * B
    decreases k
  {
    if k == 0 {
      MulMono(r + s, B, W);
      assert Pow2(0) == 1;
    } else {
      hide Carry, Next, Sq, W, B, Q128;
      var f, r1, s1 := Carry(r), Next(r), 4 * s + 3;
      Round(r);
      SlackBudget(s, k);
      LogBitsUpper(r1, s1, k - 1);
      assert r < Q128 && r * r < (r1 + 1) * Pow2(f) * W;
      SmallSlack(r, s);
      SlackRound(r, s, r1, Pow2(f), W);
      SqUnfold(r + s, k);
      SqMono((r + s) * (r + s), (r1 + s1) * Pow2(f) * W, k - 1);
      SplitPower(r1 + s1, f, W, k - 1);
      Pow2Add(f * Pow2(k - 1), LogBits(r1, k - 1));
      SqOuter(W, k - 1);
      Chained(Sq(r + s, k), Sq(r1 + s1, k - 1), Pow2(f * Pow2(k - 1)), Sq(W, k - 1), Pow2(LogBits(r1, k - 1)), W, B);
    }
  }

  lemma SlackBudget(s: nat, k: nat)
    requires k > 0 && (s + 1) * Pow4(k) <= 0x1_0000_0000_0000_0000
    ensures (4 * s + 4) * Pow4(k - 1) <= 0x1_0000_0000_0000_0000 && s < 0x1_0000_0000_0000_0000
  {
    Quadruple(s, Pow4(k - 1));
  }

  lemma Quadruple(s: nat, p: nat)
    requires 0 < p
    ensures (4 * s + 4) * p == (s + 1) * (4 * p) && s < (s + 1) * (4 * p)
  {
    MulMono(1, 4 * p, s + 1);
  }

  lemma SqUnfold(x: nat, k: nat)
    requires k > 0
    ensures Sq(x, k) == Sq(x * x, k - 1)
  {
  }

  // w stands for 2^127, the unit of the mantissa; the proofs only need it to be large enough.
  lemma SlackTerm(r: nat, s: nat, w: nat)
    requires r <= 2 * w && s * s <= 2 * w
    ensures (r + s) * (r + s) <= r * r + (4 * s + 2) * w
  {
    MulMono(r, 2 * w, 2 * s);
    assert (r + s) * (r + s) == r * r + r * (2 * s) + s * s;
    assert (2 * w) * (2 * s) == (4 * s) * w;
    assert (4 * s + 2) * w == (4 * s) * w + 2 * w;
  }

  lemma SlackRound(r: nat, s: nat, r1: nat, f: nat, w: nat)
    requires r <= 2 * w && s * s <= 2 * w && 1 <= f
    requires r * r < (r1 + 1) * f * w
    ensures (r + s) * (r + s) <= (r1 + (4 * s + 3)) * f * w
  {
    SlackTerm(r, s, w);
    MulMono(1, f, 4 * s + 2);
    MulMono(4 * s + 2, (4 * s + 2) * f, w);
    assert (r1 + (4 * s + 3)) * f == (r1 + 1) * f + (4 * s + 2) * f;
    assert ((r1 + 1) * f + (4 * s + 2) * f) * w == (r1 + 1) * f * w + (4 * s + 2) * f * w;
  }

  lemma SmallSlack(r: nat, s: nat)
    requires r < Q128 && s < 0x1_0000_0000_0000_0000
    ensures r <= 2 * W && s * s <= 2 * W
  {
    MulMono(s, 0x1_0000_0000_0000_0000, s);
    MulMono(s, 0x1_0000_0000_0000_0000, 0x1_0000_0000_0000_0000);
  }

  lemma Chained(x: nat, y: nat, p: nat, w: nat, q: nat, unit: nat, b: nat)
    requires x <= y * (p * w) && y * unit <= q * w * b
    ensures x * unit <= (p * q) * (w * w) * b
  {
    MulMono(x, y * (p * w), unit);
    assert (y * (p * w)) * unit == (y * unit) * (p * w);
    MulMono(y * unit, q * w * b, p * w);
    assert (q * w * b) * (p * w) == (q * w) * (p * w) * b;
    Regroup(p, q, w);
  }

  // ----- the logarithm of one tick -----

  // The first 32 rounds of the loop on the normalised constant Magic(19) * 2^37: the mantissa
  // after i rounds and the bits extracted so far.
  function Rounds(i: nat): (nat, nat)
    requires i <= 32
  {
    match i
    case 0 => (0x9142e0723efb884889d1f44000000000, 0)
    case 1 => (0xa4d9a773d61316918f140bc889f54801, 0)
    case 2 => (0xd44f2f3374636dfb6364b35ea9d8f08e, 0)
    case 3 => (0xb0133eab633a729a54b0842e237a8855, 1)
    case 4 => (0xf234ef3c0a711e1e7ad2ca42646aca4d, 2)
    case 5 => (0xe5281f3f93b34479f8487bfcd55586c8, 5)
    case 6 => (0xcd20ce3185ed56170e57e0cfbe6769bc, 11)
    case 7 => (0xa45d8e6f82f35454f434db6a4edefd2b, 23)
    case 8 => (0xd310015f58199d61c455221b0d40bf6e, 46)
    case 9 => (0xae03634357271ed58a6c11b89181da0f, 93)
    case 10 => (0xec9135f60914bfe7fe5620c9ce84a84f, 186)
    case 11 => (0xda9c0ddbccd4578d2d66425e8c78e778, 373)
    case 12 => (0xbaae26bb3d7b576ccd76bb7c1a4bb376, 747)
    case 13 => (0x882186c0c1baede87161dee1985ba622, 1495)
    case 14 => (0x90c74721a4edd5d654e99d3d7bff5e9c, 2990)
    case 15 => (0xa3c1964b073b5076dddcdec6b19739b1, 5980)
    case 16 => (0xd1802f8f0124e4bae2051104e4e127bd, 11960)
    case 17 => (0xab728dd717b534abb323c1bbf7365a21, 23921)
    case 18 => (0xe5a4797ff7a7ad2d75a5f840a1ea6455, 47842)
    case 19 => (0xcdffab0ad6b182bd6061751c735271ac, 95685)
    case 20 => (0xa5c377458db77c4c60368eef4338091f, 191371)
    case 21 => (0xd6ab19fd286c50d0329918d7adf3b814, 382742)
    case 22 => (0xb40281cefa6c840e1efdfa8b09686783, 765485)
    case 23 => (0xfd270d22b26d863e89010c59166e25a0, 1530970)
    case 24 => (0xfa5635eb95eb638982f050cae72e86a3, 3061941)
    case 25 => (0xf4cc7e586673dd6f814ce03e721852da, 6123883)
    case 26 => (0xea1674321e8b4a261ed326d28b5cfb85, 12247767)
    case 27 => (0xd60d0e63cd3158fc9c27c34182b8ee39, 24495535)
    case 28 => (0xb2f9d4b9520069231d18dcf83d0abe95, 48991071)
    case 29 => (0xfa40bf426e9b19f34f871be5eb0be81c, 97982142)
    case 30 => (0xf4a285edf0226e84d977c07126f014f1, 195964285)
    case 31 => (0xe9c6367b58f6a6eb6686c232f9df9034, 391928571)
    case _ => (0xd57a68a4da56de595f1e1bd1a0db6aa4, 783857143)
  }

  lemma RoundsEnds()
    ensures Rounds(0) == (Magic(19) * 0x20_0000_0000, 0) && Rounds(32).1 == 783857143
  {
  }

  ghost predicate StepHolds(i: nat)
    requires i < 32
  {
    Next(Rounds(i).0) == Rounds(i + 1).0 && Rounds(i + 1).1 == 2 * Rounds(i).1 + Carry(Rounds(i).0)
  }

  lemma RoundsStepFrom0(i: nat)
    requires i < 11
    ensures StepHolds(i)
  {
    assert Pow2(0) == 1 && Pow2(1) == 2;
  }

  lemma RoundsStepFrom11(i: nat)
    requires 11 <= i < 22
    ensures StepHolds(i)
  {
    assert Pow2(0) == 1 && Pow2(1) == 2;
  }

  lemma RoundsStepFrom22(i: nat)
    requires 22 <= i < 32
    ensures StepHolds(i)
  {
    assert Pow2(0) == 1 && Pow2(1) == 2;
  }

  lemma RoundsStep(i: nat)
    requires i < 32
    ensures StepHolds(i)
  {
    hide StepHolds;
    if i < 11 {
      RoundsStepFrom0(i);
    } else if i < 22 {
      RoundsStepFrom11(i);
    } else {
      RoundsStepFrom22(i);
    }
  }

  lemma {:induction false} RoundsBits(i: nat)
    requires i <= 32
    ensures LogBits(Rounds(0).0, 32) == Rounds(i).1 * Pow2(32 - i) + LogBits(Rounds(i).0, 32 - i)
    decreases i
  {
    hide Rounds, Next, Carry, LogBits, Pow2;
    if i == 0 {
      RoundsEnds();
    } else {
      RoundsBits(i - 1);
      RoundsStep(i - 1);
      assert StepHolds(i - 1);
      BitsUnfold(Rounds(i - 1).0, Rounds(i - 1).1, 33 - i);
    }
  }

  lemma BitsUnfold(m: nat, p: nat, k: nat)
    requires k > 0
    ensures p * Pow2(k) + LogBits(m, k) == (2 * p + Carry(m)) * Pow2(k - 1) + LogBits(Next(m), k - 1)
  {
    hide Carry, Next;
    assert p * Pow2(k) == (2 * p) * Pow2(k - 1);
  }

  // 2^51 times minus the base two logarithm of the square root of 1.0001.
  const UNIT: nat := 162424900105

  ghost function S(k: nat): nat {
    Sq(Q128, k)
  }

  lemma {:induction false} Pow4IsPow2(k: nat)
    ensures Pow4(k) == Pow2(2 * k)
  {
    if k > 0 {
      Pow4IsPow2(k - 1);
      Pow2Add(2, 2 * (k - 1));
      assert Pow2(2) == 4;
    }
  }

  lemma BaseLiterals()
    ensures LogBits(Magic(19) * Pow2(37), 32) == 783857143
    ensures Pow4(32) == 0x1_0000_0000_0000_0000 && W <= Magic(19) * Pow2(37) < Q128
  {
    Pow2Literals();
    Pow2Add(5, 32);
    assert Pow2(0) == 1 && Pow2(5) == 32;
    Pow4IsPow2(32);
    RoundsEnds();
    RoundsBits(32);
  }

  lemma BaseLog()
    ensures S(32) <= Sq(Magic(19), 32) * Pow2(UNIT)
    ensures Sq(Magic(19), 32) * Pow2(UNIT) <= Pow2(2) * S(32)
  {
    hide *;
    var c, n, e, d := Magic(19), 783857143, UNIT, Pow2(32);
    BaseLiterals();
    BasePowers();
    LogBitsLower(c * Pow2(37), 32);
    LogBitsUpper(c * Pow2(37), 0, 32);
    SqMul(c, Pow2(37), 32);
    BaseExponents(n, e, d);
    SqPositive(Pow2(37), 32);
    BaseScale(Sq(c * Pow2(37), 32), Pow2(n) * Sq(W, 32));
    BaseCancel(Sq(c, 32), Sq(Pow2(37), 32), Pow2(e), S(32), Pow2(n) * Sq(W, 32));
  }

  lemma BasePowers()
    ensures 783857143 + UNIT == 38 * Pow2(32) && Pow2(2) == 4
    ensures Sq(Pow2(37), 32) == Pow2(37 * Pow2(32)) && Sq(W, 32) == Pow2(127 * Pow2(32))
    ensures S(32) == Pow2(128 * Pow2(32))
  {
    Pow2Literals();
    SqPow2(37, 32);
    SqPow2(127, 32);
    SqPow2(128, 32);
    hide Sq;
  }

  lemma BaseExponents(n: nat, e: nat, d: nat)
    requires n + e == 38 * d
    ensures Pow2(n) * Pow2(127 * d) * Pow2(e) == Pow2(128 * d) * Pow2(37 * d)
  {
    hide Pow2;
    Pow2Add(n, 127 * d);
    Pow2Add(n + 127 * d, e);
    Pow2Add(128 * d, 37 * d);
  }

  // Cancelling the normalisation h = 2^(37 * 2^32) from both bounds on u * h.
  lemma BaseCancel(u: nat, h: nat, e: nat, s: nat, x: nat)
    requires h > 0 && x * e == s * h && x <= u * h <= 4 * x
    ensures s <= u * e && u * e <= 4 * s
  {
    BaseLower(u, h, e, s, x);
    BaseUpper(u, h, e, s, x);
  }

  lemma BaseLower(u: nat, h: nat, e: nat, s: nat, x: nat)
    requires h > 0 && x * e == s * h && x <= u * h
    ensures s <= u * e
  {
    MulMono(x, u * h, e);
    Reassociate(u, h, e);
    MulCancel(s, u * e, h);
  }

  lemma BaseUpper(u: nat, h: nat, e: nat, s: nat, x: nat)
    requires h > 0 && x * e == s * h && u * h <= 4 * x
    ensures u * e <= 4 * s
  {
    MulMono(u * h, 4 * x, e);
    Reassociate(u, h, e);
    assert (4 * x) * e == 4 * (x * e);
    assert (4 * s) * h == 4 * (s * h);
    MulCancel(u * e, 4 * s, h);
  }

  lemma BaseScale(y: nat, x: nat)
    requires y * W <= x * B
    ensures y <= 4 * x
  {
  }

  // Each constant is, to within one part in 2^88, the square of the one before it.
  lemma SquaresStep(j: nat)
    requires j < 19
    ensures Magic(j) * Magic(j) <= Magic(j + 1) * Q128 + 2 * Q128
    ensures Magic(j + 1) * Q128 <= Magic(j) * Magic(j) + 2 * Q128
    ensures 0x80_0000_0000_0000 * Q128 <= Magic(j) * Magic(j)
    ensures 0x80_0000_0000_0000 * Q128 <= Magic(j + 1) * Q128
  {
  }

  lemma {:induction false} ConstantLog(j: nat)
    requires j < 20
    ensures S(51 - j) <= Sq(Magic(j), 51 - j) * Pow2(UNIT + (19 - j))
    ensures Sq(Magic(j), 51 - j) * Pow2(UNIT) <= Pow2(21 - j) * S(51 - j)
    decreases 20 - j
  {
    if j == 19 {
      BaseLog();
    } else {
      ConstantLog(j + 1);
      SquaresStep(j);
      hide Magic, Q128, UNIT;
      var c, d, k := Magic(j), Magic(j + 1), 50 - j;
      NearSquares(c * c, d * Q128, k);
      SqMul(d, Q128, k);
      SqOuter(Q128, k);
      assert Pow2(UNIT + (19 - j)) == 2 * Pow2(UNIT + (18 - j));
      assert Pow2(21 - j) == 2 * Pow2(20 - j);
      NearStep(Sq(c, k + 1), Sq(d, k), S(k), Pow2(UNIT + (18 - j)), Pow2(UNIT), Pow2(20 - j));
    }
  }

  lemma NearSquares(x: nat, y: nat, k: nat)
    requires k <= 50 && x <= y + 2 * Q128 && y <= x + 2 * Q128
    requires 0x80_0000_0000_0000 * Q128 <= x && 0x80_0000_0000_0000 * Q128 <= y
    ensures Sq(x, k) <= 2 * Sq(y, k) && Sq(y, k) <= 2 * Sq(x, k)
  {
    hide Sq;
    Pow2Mono(k + 1, 51);
    assert Pow2(51) <= 0x8_0000_0000_0000 by { Pow2Literals(); Pow2Add(32, 19); assert Pow2(20) == 2 * Pow2(19); }
    MulMono(Pow2(k + 1), 0x8_0000_0000_0000, 2 * Q128);
    SqPerturbHalf(y, 2 * Q128, k);
    SqMono(x, y + 2 * Q128, k);
    SqPerturbHalf(x, 2 * Q128, k);
    SqMono(y, x + 2 * Q128, k);
  }

  lemma NearStep(u: nat, v: nat, t: nat, p: nat, e: nat, m: nat)
    requires u <= 2 * (v * t) && v * t <= 2 * u
    requires t <= v * p && v * e <= m * t
    ensures t * t <= u * (2 * p) && u * e <= (2 * m) * (t * t)
  {
    NearStepLower(u, v, t, p);
    NearStepUpper(u, v, t, e, m);
  }

  lemma NearStepLower(u: nat, v: nat, t: nat, p: nat)
    requires v * t <= 2 * u && t <= v * p
    ensures t * t <= u * (2 * p)
  {
    MulMono(t, v * p, t);
    Reassociate(v, p, t);
    MulMono(v * t, 2 * u, p);
    Doubled(u, p);
  }

  lemma NearStepUpper(u: nat, v: nat, t: nat, e: nat, m: nat)
    requires u <= 2 * (v * t) && v * e <= m * t
    ensures u * e <= (2 * m) * (t * t)
  {
    MulMono(u, 2 * (v * t), e);
    MulMono(v * e, m * t, t);
    Reassociate(v, t, e);
    Reassociate(m, t, t);
    Twice(v * t, e);
    Twice(m, t * t);
  }

  lemma Twice(a: int, b: int)
    ensures (2 * a) * b == 2 * (a * b)
  {
  }

  // ----- the logarithm of a ratio -----

  // All twenty constants on one scale: constant j is 2^-(UNIT * 2^j / 2^51), with an error of
  // at most 22 * 2^j units.
  lemma MagicLog(j: nat)
    requires j < 20
    ensures S(51) <= Sq(Magic(j), 51) * Pow2((UNIT + 20) * Pow2(j))
    ensures Sq(Magic(j), 51) * Pow2(UNIT * Pow2(j)) <= Pow2(22 * Pow2(j)) * S(51)
  {
    hide *;
    MagicLogLow(j);
    MagicLogHigh(j);
  }

  lemma MagicLogLow(j: nat)
    requires j < 20
    ensures S(51) <= Sq(Magic(j), 51) * Pow2((UNIT + 20) * Pow2(j))
  {
    hide *;
    ConstantLog(j);
    var k := 51 - j;
    var u := Sq(Magic(j), k);
    Rescale(Q128, k, j);
    SqCompose(Magic(j), k, j);
    SqMono(S(k), u * Pow2(UNIT + (19 - j)), j);
    SqMul(u, Pow2(UNIT + (19 - j)), j);
    SqPow2(UNIT + (19 - j), j);
    MulMono(UNIT + (19 - j), UNIT + 20, Pow2(j));
    Pow2Mono((UNIT + (19 - j)) * Pow2(j), (UNIT + 20) * Pow2(j));
    MulMono(Pow2((UNIT + (19 - j)) * Pow2(j)), Pow2((UNIT + 20) * Pow2(j)), Sq(Magic(j), 51));
  }

  lemma MagicLogHigh(j: nat)
    requires j < 20
    ensures Sq(Magic(j), 51) * Pow2(UNIT * Pow2(j)) <= Pow2(22 * Pow2(j)) * S(51)
  {
    hide *;
    ConstantLog(j);
    var k := 51 - j;
    var u := Sq(Magic(j), k);
    Rescale(Q128, k, j);
    SqCompose(Magic(j), k, j);
    SqMono(u * Pow2(UNIT), Pow2(21 - j) * S(k), j);
    SqMul(u, Pow2(UNIT), j);
    SqMul(Pow2(21 - j), S(k), j);
    SqPow2(UNIT, j);
    SqPow2(21 - j, j);
    MulMono(21 - j, 22, Pow2(j));
    Pow2Mono((21 - j) * Pow2(j), 22 * Pow2(j));
    MulMono(Pow2((21 - j) * Pow2(j)), Pow2(22 * Pow2(j)), S(51));
  }

  lemma Rescale(x: nat, k: nat, j: nat)
    ensures Sq(S(k), j) == S(k + j)
  {
    SqCompose(Q128, k, j);
  }

  // One multiplication of the chain, as an upper bound.
  lemma ShiftUpper(ratio: nat, j: nat, rest: nat, a: nat, b: nat)
    requires j < 20
    requires rest * Pow2(UNIT * a) <= Pow2(22 * a) * Sq(MulShift(ratio, Magic(j)), 51)
    requires b == a + Pow2(j)
    ensures rest * Pow2(UNIT * b) <= Pow2(22 * b) * Sq(ratio, 51)
  {
    hide *;
    var c, next := Magic(j), MulShift(ratio, Magic(j));
    MulShiftBounds(ratio, c);
    MagicLog(j);
    SqMono(next * Q128, ratio * c, 51);
    SqMul(next, Q128, 51);
    SqMul(ratio, c, 51);
    SIsSq(51);
    SplitExponent(UNIT, a, Pow2(j));
    SplitExponent(22, a, Pow2(j));
    SPositive(51);
    UpperStep(rest, Sq(next, 51), S(51), Sq(ratio, 51), Sq(c, 51),
              Pow2(UNIT * a), Pow2(22 * a), Pow2(UNIT * Pow2(j)), Pow2(22 * Pow2(j)));
  }

  lemma MulShiftBounds(ratio: nat, c: nat)
    ensures MulShift(ratio, c) * Q128 <= ratio * c < (MulShift(ratio, c) + 1) * Q128
  {
    DivBounds(ratio * c, Q128);
  }

  lemma SIsSq(k: nat)
    ensures S(k) == Sq(Q128, k)
  {
  }

  lemma SPositive(k: nat)
    ensures S(k) > 0
  {
    SqPositive(Q128, k);
  }

  lemma SplitExponent(u: nat, a: nat, b: nat)
    ensures Pow2(u * (a + b)) == Pow2(u * a) * Pow2(u * b)
  {
    Pow2Add(u * a, u * b);
    assert u * (a + b) == u * a + u * b;
  }

  lemma UpperStep(rest: nat, next: nat, s: nat, ratio: nat, c: nat, e: nat, m: nat, e1: nat, m1: nat)
    requires s > 0 && rest * e <= m * next && next * s <= ratio * c && c * e1 <= m1 * s
    ensures rest * (e * e1) <= (m * m1) * ratio
  {
    MulMono(rest * e, m * next, e1 * s);
    MulMono(next * s, ratio * c, m * e1);
    MulMono(c * e1, m1 * s, m * ratio);
    assert (rest * e) * (e1 * s) == (rest * (e * e1)) * s;
    assert (m * next) * (e1 * s) == (next * s) * (m * e1);
    assert (ratio * c) * (m * e1) == (c * e1) * (m * ratio);
    assert (m1 * s) * (m * ratio) == ((m * m1) * ratio) * s;
    MulCancel(rest * (e * e1), (m * m1) * ratio, s);
  }

  // The same multiplication as a lower bound; each truncation costs one unit of slack.
  lemma ShiftLower(ratio: nat, slack: nat, j: nat, rest: nat, a: nat, b: nat)
    requires j < 20
    requires Sq(MulShift(ratio, Magic(j)) + (slack + 1), 51) <= rest * Pow2((UNIT + 20) * a)
    requires b == a + Pow2(j)
    ensures Sq(ratio + slack, 51) <= rest * Pow2((UNIT + 20) * b)
  {
    hide *;
    var c, next := Magic(j), MulShift(ratio, Magic(j));
    MulShiftBounds(ratio, c);
    MagicLog(j);
    SlackProduct(ratio, slack, next, c);
    SqMono((ratio + slack) * c, (next + (slack + 1)) * Q128, 51);
    SqMul(next + (slack + 1), Q128, 51);
    SqMul(ratio + slack, c, 51);
    SIsSq(51);
    SplitExponent(UNIT + 20, a, Pow2(j));
    SPositive(51);
    LowerStep(rest, Sq(next + (slack + 1), 51), S(51), Sq(ratio + slack, 51), Sq(c, 51),
              Pow2((UNIT + 20) * a), Pow2((UNIT + 20) * Pow2(j)));
  }

  lemma SlackProduct(ratio: nat, slack: nat, next: nat, c: nat)
    requires c < Q128 && ratio * c < (next + 1) * Q128
    ensures (ratio + slack) * c <= (next + (slack + 1)) * Q128
  {
    MulMono(c, Q128, slack);
  }

  lemma LowerStep(rest: nat, next: nat, s: nat, ratio: nat, c: nat, e: nat, e1: nat)
    requires s > 0 && next <= rest * e && ratio * c <= next * s && s <= c * e1
    ensures ratio <= rest * (e * e1)
  {
    MulMono(s, c * e1, ratio);
    MulMono(ratio * c, next * s, e1);
    MulMono(next, rest * e, s * e1);
    assert (c * e1) * ratio == (ratio * c) * e1;
    assert (next * s) * e1 == next * (s * e1);
    assert (rest * e) * (s * e1) == (rest * (e * e1)) * s;
    MulCancel(ratio, rest * (e * e1), s);
  }

  // What the bits from position j on weigh in ticks.
  lemma Weight(bits: nat, j: nat)
    ensures bits * Pow2(j) == bits / 2 * Pow2(j + 1) + (if bits % 2 == 1 then Pow2(j) else 0)
  {
    var p := Pow2(j);
    assert Pow2(j + 1) == 2 * p;
    assert bits / 2 * (2 * p) == (bits / 2 * 2) * p;
    if bits % 2 == 1 {
      assert bits * p == (bits / 2 * 2) * p + p;
    }
  }

  lemma {:induction false} ChainUpper(ratio: nat, bits: nat, j: nat)
    requires j <= 20 && bits < Pow2(20 - j)
    ensures Sq(Chain(ratio, bits, j), 51) * Pow2(UNIT * (bits * Pow2(j)))
         <= Pow2(22 * (bits * Pow2(j))) * Sq(ratio, 51)
    decreases 20 - j
  {
    hide *;
    if j == 20 {
      LastBit(ratio, bits);
    } else {
      HalfBits(bits, j);
      Weight(bits, j);
      ChainUnfold(ratio, bits, j);
      if bits % 2 == 1 {
        var rest := Sq(Chain(ratio, bits, j), 51);
        ChainUpper(MulShift(ratio, Magic(j)), bits / 2, j + 1);
        ShiftUpper(ratio, j, rest, bits / 2 * Pow2(j + 1), bits * Pow2(j));
      } else {
        ChainUpper(ratio, bits / 2, j + 1);
      }
    }
  }

  lemma HalfBits(bits: nat, j: nat)
    requires j < 20 && bits < Pow2(20 - j)
    ensures bits / 2 < Pow2(19 - j)
  {
  }

  lemma LastBit(ratio: nat, bits: nat)
    requires bits < Pow2(0)
    ensures bits * Pow2(20) == 0 && Chain(ratio, bits, 20) == ratio
    ensures Pow2(UNIT * 0) == 1 && Pow2(22 * 0) == 1 && Pow2((UNIT + 20) * 0) == 1
  {
    assert Pow2(0) == 1;
    EmptyChain(ratio, bits);
  }

  lemma {:induction false} ChainLower(ratio: nat, slack: nat, bits: nat, j: nat, top: nat)
    requires j <= 20 && bits < Pow2(20 - j)
    requires Chain(ratio, bits, j) + slack + (20 - j) <= top
    ensures Sq(ratio + slack, 51) <= Sq(top, 51) * Pow2((UNIT + 20) * (bits * Pow2(j)))
    decreases 20 - j
  {
    hide *;
    if j == 20 {
      LastBit(ratio, bits);
      SqMono(ratio + slack, top, 51);
    } else {
      HalfBits(bits, j);
      Weight(bits, j);
      ChainUnfold(ratio, bits, j);
      if bits % 2 == 1 {
        ChainLower(MulShift(ratio, Magic(j)), slack + 1, bits / 2, j + 1, top);
        ShiftLower(ratio, slack, j, Sq(top, 51), bits / 2 * Pow2(j + 1), bits * Pow2(j));
      } else {
        ChainLower(ratio, slack, bits / 2, j + 1, top);
      }
    }
  }

  // The ratio of absTick is 2^-(UNIT * absTick / 2^51), up to 22 units a tick.
  lemma RatioLog(absTick: nat)
    requires absTick < 0x100000 && 0x4000_0000_0000_0000 <= RatioAt(absTick)
    ensures Sq(RatioAt(absTick), 51) * Pow2(UNIT * absTick) <= Pow2(22 * absTick) * S(51)
    ensures S(51) <= 2 * Sq(RatioAt(absTick), 51) * Pow2((UNIT + 20) * absTick)
  {
    hide Sq, RatioAt, Chain, UNIT;
    Pow2Literals();
    NoBitsYet();
    RatioAtIs(absTick);
    hide Pow2;
    ChainUpper(Q128, absTick, 0);
    ChainLower(Q128, 0, absTick, 0, RatioAt(absTick) + 20);
    var r := RatioAt(absTick);
    SlackFits(r);
    SqPerturbHalf(r, 20, 51);
    assert absTick * 1 == absTick;
    MulMono(Sq(r + 20, 51), 2 * Sq(r, 51), Pow2((UNIT + 20) * absTick));
  }

  lemma NoBitsYet()
    ensures Pow2(0) == 1
  {
  }

  lemma SlackFits(r: nat)
    requires 0x4000_0000_0000_0000 <= r
    ensures 20 * Pow2(52) <= r
  {
    Pow2Literals();
    Pow2Add(20, 32);
  }

  lemma RatioAtIs(absTick: nat)
    ensures RatioAt(absTick) == Chain(Q128, absTick, 0)
  {
  }

  lemma {:induction false} RatioDecreasing(a: nat, b: nat)
    requires a <= b < 0x100000
    ensures RatioAt(b) <= RatioAt(a)
    decreases b - a
  {
    hide *;
    if a < b {
      RatioDecreasing(a + 1, b);
      RatioFacts(a);
    }
  }

  lemma RatioLarge(absTick: nat)
    requires absTick <= 887272
    ensures 0x4000_0000_0000_0000 <= RatioAt(absTick)
  {
    hide RatioAt;
    RatioDecreasing(absTick, 887272);
    ExtremeRatio();
  }

  // RatioLog for every tick of a pool, in powers of two only: 2^58 is 128 * 2^51.
  lemma RatioPower(absTick: nat)
    requires absTick <= 887272
    ensures Sq(RatioAt(absTick), 51) * Pow2(UNIT * absTick) <= Pow2(22 * absTick + 0x400_0000_0000_0000)
    ensures Pow2(0x400_0000_0000_0000) <= Sq(RatioAt(absTick), 51) * Pow2((UNIT + 20) * absTick + 1)
  {
    hide *;
    RatioLarge(absTick);
    RatioLog(absTick);
    Pow2Of51();
    ScalePower(51, 0x8_0000_0000_0000);
    Pow2Add(22 * absTick, 0x400_0000_0000_0000);
    Pow2Succ((UNIT + 20) * absTick);
  }

  lemma Pow2Succ(n: nat)
    ensures Pow2(n + 1) == 2 * Pow2(n)
  {
  }

  lemma ScalePower(k: nat, n: nat)
    requires n == Pow2(k)
    ensures S(k) == Pow2(128 * n)
  {
    assert Pow2(128) == Q128 by { Pow2Literals(); }
    SqPow2(128, k);
  }

  lemma Pow2Of51()
    ensures Pow2(51) == 0x8_0000_0000_0000
  {
    Pow2Literals();
    Pow2Add(32, 19);
    assert Pow2(20) == 2 * Pow2(19);
  }

  // ----- the logarithm of a price -----

  // x, as a mantissa in [2^127, 2^128) scaled by 2^msb / 2^127 and rounded down.
  ghost predicate Normalised(x: nat, msb: nat, r: nat) {
    W <= r < Q128 && r * Pow2(msb) <= x * W < (r + 1) * Pow2(msb)
  }

  // The fourteen bits of the loop determine log2(x) to one part in 2^14.
  lemma PriceLog(x: nat, msb: nat, r: nat)
    requires Normalised(x, msb, r)
    ensures var u := LogBits(r, 14) + msb * 0x4000;
            Pow2(u * 0x20_0000_0000) <= Sq(x, 51) <= Pow2((u + 1) * 0x20_0000_0000 + 1)
  {
    hide LogBits, Sq, Pow2, Carry;
    var n, t := LogBits(r, 14), Sq(x, 14);
    var u := n + msb * 0x4000;
    assert Pow4(14) == 0x1000_0000 by { PowersOfTwo(); }
    LogBitsLower(r, 14);
    LogBitsUpper(r, 1, 14);
    SqMono(r * Pow2(msb), x * W, 14);
    SqMono(x * W, (r + 1) * Pow2(msb), 14);
    SqMul(r, Pow2(msb), 14);
    SqMul(r + 1, Pow2(msb), 14);
    SqMul(x, W, 14);
    SqPow2(msb, 14);
    PowersOfTwo();
    SqPositive(W, 14);
    Pow2Add(n, msb * 0x4000);
    PriceCancel(t, Sq(W, 14), Sq(r, 14), Sq(r + 1, 14), Pow2(n), Pow2(msb * 0x4000));
    SqCompose(x, 14, 37);
    SqMono(Pow2(u), t, 37);
    SqPow2(u, 37);
    PriceUpper(t, u);
  }

  lemma PowersOfTwo()
    ensures Pow2(1) == 2 && Pow2(14) == 0x4000 && Pow2(37) == 0x20_0000_0000 && Pow4(14) == 0x1000_0000 && Pow2(38) == 0x40_0000_0000
  {
    Pow2Literals();
    Pow2Add(5, 32);
    Pow4IsPow2(14);
    Pow2Add(14, 14);
    assert Pow2(5) == 32;
  }

  lemma PriceCancel(t: nat, w: nat, r: nat, r1: nat, p: nat, q: nat)
    requires w > 0 && p * w <= r && r1 * W <= p * w * B
    requires r * q <= t * w <= r1 * q
    ensures p * q <= t && t * W <= (p * q) * B
  {
    MulMono(p * w, r, q);
    Reassociate(p, w, q);
    MulCancel(p * q, t, w);
    MulMono(t * w, r1 * q, W);
    MulMono(r1 * W, p * w * B, q);
    assert (r1 * q) * W == (r1 * W) * q;
    assert (p * w * B) * q == ((p * q) * B) * w;
    assert (t * w) * W == (t * W) * w;
    MulCancel(t * W, (p * q) * B, w);
  }

  lemma PriceUpper(t: nat, u: nat)
    requires t * W <= Pow2(u) * B
    ensures Sq(t, 37) <= Pow2((u + 1) * 0x20_0000_0000 + 1)
  {
    hide Sq, Pow2;
    var d := 0x20_0000_0000;
    SqMono(t * W, Pow2(u) * B, 37);
    SqMul(t, W, 37);
    SqMul(Pow2(u), B, 37);
    SqPow2(u, 37);
    PowersOfTwo();
    assert 0x1_0000_0000_0000_0000 * Pow2(38) <= Q128;
    SqPerturbHalf(Q128, 0x1_0000_0000_0000_0000, 37);
    assert Q128 + 0x1_0000_0000_0000_0000 == B;
    assert Q128 == Pow2(1) * W;
    SqMul(Pow2(1), W, 37);
    SqPow2(1, 37);
    SqPositive(W, 37);
    Pow2Add(u * d, d);
    Pow2Succ((u + 1) * d);
    assert (u + 1) * d == u * d + d;
    MulMono(Sq(B, 37), 2 * (Pow2(d) * Sq(W, 37)), Pow2(u * d));
    assert (2 * (Pow2(d) * Sq(W, 37))) * Pow2(u * d) == (2 * (Pow2(u * d) * Pow2(d))) * Sq(W, 37);
    MulCancel(Sq(t, 37), 2 * (Pow2(u * d) * Pow2(d)), Sq(W, 37));
  }

  // ----- the two candidate ticks -----

  const TICKS_PER_LOG: nat := 255738958999603826347141 // 2^64 / log2(sqrt(1.0001))
  const LOW_MARGIN: nat := 3402992956809132418596140100660247210
  const HIGH_MARGIN: nat := 291339464771989622907027621153398088495

  // The logarithm to the base sqrt(1.0001) computed from u, the Q14 logarithm of a
  // Q128 price.
  function LogTicks(u: int): int {
    (u - 0x20_0000) * 0x4_0000_0000_0000 * TICKS_PER_LOG
  }

  lemma ReflectSq(x: nat, y: nat, p: nat, a: nat, b: nat)
    requires Sq(x, 51) * Pow2(p) <= Pow2(a)
    requires Pow2(b) <= Sq(y, 51)
    requires a <= b + p
    ensures x <= y
  {
    hide Sq, Pow2;
    if x > y {
      SqStrict(y, x, 51);
      MulStrict(Sq(y, 51), Sq(x, 51), Pow2(p));
      MulMono(Pow2(b), Sq(y, 51), Pow2(p));
      Pow2Add(b, p);
      Pow2Mono(a, b + p);
    }
  }

  // A tick whose logarithm lies LOW_MARGIN below the price has a ratio no larger than the price.
  lemma LowTick(x: nat, u: nat, t: int)
    requires -887272 <= t <= 887272
    requires Pow2(u * 0x20_0000_0000) <= Sq(x, 51)
    requires t * Q128 + LOW_MARGIN <= LogTicks(u)
    ensures TickRatio(t) <= x
  {
    var v := u * 0x20_0000_0000;
    if t <= 0 {
      var a: nat := -t;
      RatioPower(a);
      NegativeRatio(t);
      hide Sq, Pow2, RatioAt, TickRatio;
      ReflectSq(RatioAt(a), x, UNIT * a, 22 * a + 0x400_0000_0000_0000, v);
    } else {
      RatioPower(t);
      InverseUpper(t);
      hide Sq, Pow2, RatioAt, TickRatio;
      assert Pow2(0) == 1 by { PowersOfZero(); }
      ReflectSq(TickRatio(t), x, 0, 0x400_0000_0000_0000 + ((UNIT + 20) * t + 1), v);
    }
  }

  lemma PowersOfZero()
    ensures Pow2(0) == 1
  {
  }

  lemma NegativeRatio(t: int)
    requires t <= 0
    ensures TickRatio(t) == RatioAt(-t)
  {
    hide RatioAt;
  }

  lemma PositiveRatio(t: int)
    requires t > 0
    ensures RatioAt(t) > 0 && RatioAt(t) <= Q128
    ensures TickRatio(t) * RatioAt(t) <= MAX_UINT256 < (TickRatio(t) + 1) * RatioAt(t)
    ensures Q128 <= TickRatio(t) + 1
  {
    RatioPositive(t);
    ChainCeiling(Q128, t, 0);
    hide Chain;
    var r := RatioAt(t);
    DivBounds(MAX_UINT256, r);
    MulMono(r, Q128, Q128 - 1);
    FloorGalois(MAX_UINT256, r, Q128 - 1);
  }

  lemma InverseSquares(t: int)
    requires t > 0
    ensures Sq(TickRatio(t), 51) * Sq(RatioAt(t), 51) <= Sq(Q128, 51) * Sq(Q128, 51)
    ensures Sq(Q128, 51) * Sq(Q128, 51) <= Sq(TickRatio(t) + 1, 51) * Sq(RatioAt(t), 51)
  {
    PositiveRatio(t);
    hide Sq, TickRatio, RatioAt;
    var q, r := TickRatio(t), RatioAt(t);
    SqMono(q * r, Q128 * Q128, 51);
    SqMono(Q128 * Q128, (q + 1) * r, 51);
    SqMul(q, r, 51);
    SqMul(q + 1, r, 51);
    SqMul(Q128, Q128, 51);
  }

  lemma InverseUpper(t: int)
    requires 0 < t <= 887272
    ensures Sq(TickRatio(t), 51) <= Pow2(0x400_0000_0000_0000 + ((UNIT + 20) * t + 1))
  {
    hide *;
    RatioPower(t);
    InverseSquares(t);
    SMeaning();
    var q, r, s, e := TickRatio(t), RatioAt(t), Pow2(0x400_0000_0000_0000), Pow2((UNIT + 20) * t + 1);
    Pow2Add(0x400_0000_0000_0000, (UNIT + 20) * t + 1);
    InverseUpperStep(Sq(q, 51), Sq(r, 51), s, e);
  }

  lemma SMeaning()
    ensures Sq(Q128, 51) == Pow2(0x400_0000_0000_0000) && MAX_UINT256 + 1 == Q128 * Q128
    ensures Q128 == 0x1_0000_0000_0000_0000_0000_0000_0000_0000
  {
    Pow2Of51();
    ScalePower(51, 0x8_0000_0000_0000);
  }

  lemma InverseUpperStep(q: nat, r: nat, s: nat, e: nat)
    requires s > 0 && q * r <= s * s && s <= r * e
    ensures q <= s * e
  {
    MulMono(s, r * e, q);
    MulMono(q * r, s * s, e);
    assert (r * e) * q == (q * r) * e;
    assert (s * s) * e == (s * e) * s;
    MulCancel(q, s * e, s);
  }

  // A tick whose logarithm lies more than HIGH_MARGIN above the price has a larger ratio.
  lemma HighTick(x: nat, u: nat, t: int)
    requires -887272 <= t <= 887272
    requires Sq(x, 51) <= Pow2((u + 1) * 0x20_0000_0000 + 1)
    requires LogTicks(u) + HIGH_MARGIN < t * Q128
    ensures x < TickRatio(t)
  {
    hide Sq, Pow2, RatioAt, TickRatio;
    if TickRatio(t) <= x {
      SqMono(TickRatio(t), x, 51);
      if t <= 0 {
        HighBelow(u, t);
      } else {
        HighAbove(u, t);
      }
    }
  }

  lemma HighBelow(u: nat, t: int)
    requires -887272 <= t <= 0
    requires Sq(TickRatio(t), 51) <= Pow2((u + 1) * 0x20_0000_0000 + 1)
    ensures t * Q128 <= LogTicks(u) + HIGH_MARGIN
  {
    hide Sq, Pow2, RatioAt, TickRatio;
    var a: nat := -t;
    NegativeRatio(t);
    RatioPower(a);
    ComparePowers(Sq(TickRatio(t), 51), (u + 1) * 0x20_0000_0000 + 1, 0x400_0000_0000_0000, (UNIT + 20) * a + 1);
  }

  lemma HighAbove(u: nat, t: int)
    requires 0 < t <= 887272
    requires Sq(TickRatio(t), 51) <= Pow2((u + 1) * 0x20_0000_0000 + 1)
    ensures t * Q128 <= LogTicks(u) + HIGH_MARGIN
  {
    hide Sq, Pow2, RatioAt, TickRatio;
    InverseLower(t);
    ComparePowers(Sq(TickRatio(t), 51), (u + 1) * 0x20_0000_0000 + 1, 0x400_0000_0000_0000 + UNIT * t, 22 * t + 1);
  }

  lemma ComparePowers(y: nat, v: nat, a: nat, b: nat)
    requires y <= Pow2(v) && Pow2(a) <= y * Pow2(b)
    ensures a <= v + b
  {
    hide Pow2;
    MulMono(y, Pow2(v), Pow2(b));
    Pow2Add(v, b);
    if v + b < a {
      Pow2Strict(v + b, a);
    }
  }

  lemma InverseLower(t: int)
    requires 0 < t <= 887272
    ensures Pow2(0x400_0000_0000_0000 + UNIT * t) <= Sq(TickRatio(t), 51) * Pow2(22 * t + 1)
  {
    hide *;
    RatioPower(t);
    InverseSquares(t);
    SMeaning();
    LargeInverse(t);
    var q, r, s := TickRatio(t), RatioAt(t), Pow2(0x400_0000_0000_0000);
    SqPerturbHalf(q, 1, 51);
    Pow2Add(0x400_0000_0000_0000, UNIT * t);
    Pow2Add(22 * t, 0x400_0000_0000_0000);
    Pow2Succ(22 * t);
    InverseLowerStep(Sq(q, 51), Sq(q + 1, 51), Sq(r, 51), s, Pow2(UNIT * t), Pow2(22 * t));
  }

  lemma LargeInverse(t: int)
    requires t > 0
    ensures 0 < TickRatio(t) && 1 * Pow2(52) <= TickRatio(t)
  {
    PositiveRatio(t);
    Pow2Literals();
    Pow2Add(20, 32);
  }

  lemma InverseLowerStep(q: nat, q1: nat, r: nat, s: nat, e: nat, m: nat)
    requires s > 0 && s * s <= q1 * r && q1 <= 2 * q && r * e <= m * s
    ensures s * e <= q * (2 * m)
  {
    MulMono(s * s, q1 * r, e);
    MulMono(r * e, m * s, q1);
    MulMono(q1, 2 * q, m * s);
    assert (s * s) * e == (s * e) * s;
    assert (q1 * r) * e == (r * e) * q1;
    assert (m * s) * q1 == q1 * (m * s);
    assert (2 * q) * (m * s) == (q * (2 * m)) * s;
    MulCancel(s * e, q * (2 * m), s);
  }
}
