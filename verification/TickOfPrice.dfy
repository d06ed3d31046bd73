// The inverse direction: from a square root price back to its tick, by a fixed point logarithm
// whose result is off by at most one and is then corrected with one comparison.
module TickOfPrice {
  import opened Arith
  import opened Results
  import opened TickMath
  import opened TickLog

  // The tick whose price range contains p.
  predicate IsTickAt(p: nat, t: int) {
    MIN_TICK <= t < MAX_TICK && SqrtAt(t) <= p < SqrtAt(t + 1)
  }

  lemma TickUnique(p: nat, t: int, t': int)
    requires IsTickAt(p, t) && IsTickAt(p, t')
    ensures t == t'
  {
    hide SqrtAt;
    if t < t' {
      SqrtOrder(t + 1, t');
    } else if t' < t {
      SqrtOrder(t' + 1, t);
    }
  }

  lemma SqrtOrder(a: int, b: int)
    requires -0x100000 < a <= b < 0x100000
    ensures SqrtAt(a) <= SqrtAt(b)
  {
    hide *;
    if a < b {
      SqrtAtIncreasing(a, b);
    }
  }

  lemma {:induction false} TickExists(p: nat, from: int)
    requires MIN_TICK <= from <= MAX_TICK && SqrtAt(from) <= p < MAX_SQRT_RATIO
    ensures exists t :: IsTickAt(p, t)
    decreases MAX_TICK - from
  {
    SqrtAtBounds();
    hide SqrtAt;
    if SqrtAt(from + 1) <= p {
      TickExists(p, from + 1);
    } else {
      assert IsTickAt(p, from);
    }
  }

  // The tick of a price, as a value; GetTickAtSqrtRatio below computes it.
  ghost function TickAt(p: nat): (t: int)
    requires MIN_SQRT_RATIO <= p < MAX_SQRT_RATIO
    ensures IsTickAt(p, t)
  {
    SqrtAtBounds();
    TickExists(p, MIN_TICK);
    var t :| IsTickAt(p, t);
    t
  }

  function TickLow(u: int): int {
    (LogTicks(u) - LOW_MARGIN) / Q128
  }

  function TickHigh(u: int): int {
    (LogTicks(u) + HIGH_MARGIN) / Q128
  }

  lemma CandidateBounds(u: int)
    ensures TickLow(u) <= TickHigh(u) <= TickLow(u) + 1
    ensures forall t: int :: t <= TickLow(u) ==> t * Q128 + LOW_MARGIN <= LogTicks(u)
    ensures forall t: int :: TickHigh(u) < t ==> LogTicks(u) + HIGH_MARGIN < t * Q128
  {
    hide LogTicks;
  }

  lemma PriceOrder(p: nat, t: int)
    ensures SqrtAt(t) <= p <==> TickRatio(t) <= p * Q32
  {
    hide TickRatio;
    CeilGalois(TickRatio(t), Q32, p);
  }

  // From bounds on the logarithm of a price: its two candidates bracket the answer, and the comparison
  // with the upper one decides.
  lemma Decision(p: nat, u: nat)
    requires MIN_SQRT_RATIO <= p < MAX_SQRT_RATIO
    requires Pow2(u * 0x20_0000_0000) <= Sq(p * Q32, 51) <= Pow2((u + 1) * 0x20_0000_0000 + 1)
    ensures var lo, hi := TickLow(u), TickHigh(u);
            && MIN_TICK <= hi <= MAX_TICK
            && IsTickAt(p, if lo == hi || p < SqrtAt(hi) then lo else hi)
  {
    var lo, hi := TickLow(u), TickHigh(u);
    CandidateBounds(u);
    SqrtAtBounds();
    hide SqrtAt, TickRatio, Sq, Pow2, TickLow, TickHigh, LogTicks;
    if MAX_TICK <= lo {
      NotAbove(p, u, MAX_TICK);
      assert false;
    }
    if hi < MIN_TICK {
      NotBelow(p, u, MIN_TICK);
      assert false;
    }
    if MIN_TICK <= lo {
      NotAbove(p, u, lo);
    }
    if hi < MAX_TICK {
      NotBelow(p, u, hi + 1);
    }
  }

  lemma NotAbove(p: nat, u: nat, t: int)
    requires MIN_TICK <= t <= MAX_TICK && t <= TickLow(u)
    requires Pow2(u * 0x20_0000_0000) <= Sq(p * Q32, 51)
    ensures SqrtAt(t) <= p
  {
    CandidateBounds(u);
    hide SqrtAt, TickRatio, Sq, Pow2, TickLow, TickHigh, LogTicks;
    LowTick(p * Q32, u, t);
    PriceOrder(p, t);
  }

  lemma NotBelow(p: nat, u: nat, t: int)
    requires MIN_TICK <= t <= MAX_TICK && TickHigh(u) < t
    requires Sq(p * Q32, 51) <= Pow2((u + 1) * 0x20_0000_0000 + 1)
    ensures p < SqrtAt(t)
  {
    CandidateBounds(u);
    hide SqrtAt, TickRatio, Sq, Pow2, TickLow, TickHigh, LogTicks;
    HighTick(p * Q32, u, t);
    PriceOrder(p, t);
  }

  // ----- the most significant bit -----

  const POWERS_OF_2: seq<nat> := [128, 64, 32, 16, 8, 4, 2, 1]

  method MostSignificantBit(n: nat) returns (r: Result<nat>)
    ensures n == 0 ==> r == Failure("ZERO")
    ensures n > MAX_UINT256 ==> r == Failure("MAX")
    ensures 0 < n <= MAX_UINT256 ==> r.Success? && Pow2(r.value) <= n < Pow2(r.value + 1)
  {
    if n == 0 {
      return Failure("ZERO");
    }
    if n > MAX_UINT256 {
      return Failure("MAX");
    }
    var x, msb := n, 0;
    Pow2Literals();
    Pow2Add(128, 128);
    assert Pow2(0) == 1;
    for i := 0 to 8
      invariant x * Pow2(msb) <= n < (x + 1) * Pow2(msb)
      invariant 0 < x < if i == 8 then 2 else Pow2(2 * POWERS_OF_2[i])
    {
      var power := POWERS_OF_2[i];
      hide Pow2;
      HalfBelow(power, i);
      if x >= Pow2(power) {
        ShiftRightBounds(n, x, msb, power);
        x := x / Pow2(power);
        msb := msb + power;
      }
    }
    assert x == 1;
    r := Success(msb);
  }

  lemma HalfBelow(power: nat, i: nat)
    requires i < 8 && power == POWERS_OF_2[i]
    ensures i < 7 ==> power == 2 * POWERS_OF_2[i + 1]
    ensures i == 7 ==> Pow2(power) == 2
    ensures Pow2(2 * power) == Pow2(power) * Pow2(power)
  {
    Pow2Add(power, power);
    assert Pow2(1) == 2;
  }

  lemma ShiftRightBounds(n: nat, x: nat, m: nat, p: nat)
    requires x * Pow2(m) <= n < (x + 1) * Pow2(m) && Pow2(p) <= x
    ensures x / Pow2(p) * Pow2(m + p) <= n < (x / Pow2(p) + 1) * Pow2(m + p)
    ensures 0 < x / Pow2(p) && (x < Pow2(p) * Pow2(p) ==> x / Pow2(p) < Pow2(p))
  {
    hide Pow2;
    var q := x / Pow2(p);
    DivBounds(x, Pow2(p));
    Pow2Add(m, p);
    MulMono(q * Pow2(p), x, Pow2(m));
    MulMono(x + 1, (q + 1) * Pow2(p), Pow2(m));
    assert (q * Pow2(p)) * Pow2(m) == q * (Pow2(m) * Pow2(p));
    assert ((q + 1) * Pow2(p)) * Pow2(m) == (q + 1) * (Pow2(m) * Pow2(p));
    FloorGalois(x, Pow2(p), 1);
    FloorGalois(x, Pow2(p), Pow2(p));
  }

  // ----- bitwise or on two's complement integers of any width -----

  function Abs(a: int): nat {
    if a < 0 then -a else a
  }

  function BitOr(a: int, b: int): int
    decreases Abs(a) + Abs(b)
  {
    if (a == 0 || a == -1) && (b == 0 || b == -1) then
      if a == -1 || b == -1 then -1 else 0
    else
      2 * BitOr(a / 2, b / 2) + if a % 2 == 1 || b % 2 == 1 then 1 else 0
  }

  lemma {:induction false} OrZero(a: int)
    ensures BitOr(a, 0) == a
    decreases Abs(a)
  {
    if a != 0 && a != -1 {
      OrZero(a / 2);
    }
  }

  // Or-ing a bit into a position that is still clear adds it.
  lemma {:induction false} OrFreshBit(a: int, k: nat)
    requires a % Pow2(k + 1) == 0
    ensures BitOr(a, Pow2(k)) == a + Pow2(k)
    decreases k
  {
    if k == 0 {
      assert Pow2(0) == 1 && Pow2(1) == 2;
      OrZero(a / 2);
    } else {
      var q := a / Pow2(k + 1);
      DivBounds(a, Pow2(k + 1));
      assert a == q * Pow2(k + 1) == (2 * q) * Pow2(k) by { Doubled(q, Pow2(k)); }
      HalfMultiple(a, q, Pow2(k));
      OrFreshBit(a / 2, k - 1);
      assert Pow2(k) == 2 * Pow2(k - 1);
      OrHalves(a, Pow2(k - 1));
    }
  }

  lemma HalfMultiple(a: int, q: int, p: nat)
    requires p > 0 && a == (2 * q) * p
    ensures a % 2 == 0 && a / 2 == q * p && (a / 2) % p == 0
  {
    assert a == 2 * (q * p);
    MultipleModulo(q, p);
  }

  lemma MultipleModulo(q: int, p: nat)
    requires p > 0
    ensures (q * p) % p == 0
  {
    DivUnique(q * p, p, q);
    assert q * p == p * q;
  }

  lemma OrHalves(a: int, h: nat)
    requires a % 2 == 0 && h > 0
    ensures BitOr(a, 2 * h) == 2 * BitOr(a / 2, h)
  {
  }

  // ----- getTickAtSqrtRatio -----

  // The binary logarithm as the loop assembles it: i bits m after the binary point of msb - 128.
  function Assembled(msb: nat, m: nat, i: nat): int
    requires i <= 64
  {
    (msb - 128) * Pow2(64) + m * Pow2(64 - i)
  }

  lemma AppendBit(msb: nat, m: nat, i: nat, f: nat)
    requires i < 64 && f <= 1
    ensures BitOr(Assembled(msb, m, i), f * Pow2(63 - i)) == Assembled(msb, 2 * m + f, i + 1)
  {
    var p := Pow2(63 - i);
    AssembledFactor(msb, m, i);
    hide Assembled, BitOr, Pow2;
    var a := Assembled(msb, m, i);
    if f == 1 {
      OrFreshBit(a, 63 - i);
    } else {
      OrZero(a);
    }
  }

  lemma AssembledFactor(msb: nat, m: nat, i: nat)
    requires i < 64
    ensures Assembled(msb, m, i) % Pow2(64 - i) == 0
    ensures Assembled(msb, 2 * m, i + 1) == Assembled(msb, m, i)
    ensures Assembled(msb, 2 * m + 1, i + 1) == Assembled(msb, m, i) + Pow2(63 - i)
  {
    var p := Pow2(64 - i);
    Pow2Add(i, 64 - i);
    Expand(msb - 128, Pow2(i), m, p);
    MultipleModulo((msb - 128) * Pow2(i) + m, p);
    assert p == 2 * Pow2(63 - i);
    Doubled(m, Pow2(63 - i));
    assert (2 * m + 1) * Pow2(63 - i) == (2 * m) * Pow2(63 - i) + Pow2(63 - i);
  }

  lemma Expand(a: int, b: int, c: int, d: int)
    ensures (a * b + c) * d == a * (b * d) + c * d
  {
  }

  lemma AssembledLog(msb: nat, n: nat)
    ensures Assembled(msb, n, 14) * TICKS_PER_LOG == LogTicks(n + msb * 0x4000)
  {
    Pow2Literals();
    Pow2Add(18, 32);
  }

  lemma MsbPowers(msb: nat)
    ensures Pow2(msb + 1) == 2 * Pow2(msb)
    ensures msb >= 128 ==> Pow2(msb) == W * Pow2(msb - 127)
    ensures msb < 128 ==> Pow2(msb) * Pow2(127 - msb) == W
  {
    Pow2Literals();
    hide Pow2;
    Pow2Add(1, msb);
    if msb >= 128 {
      Pow2Add(127, msb - 127);
    } else {
      Pow2Add(msb, 127 - msb);
    }
    assert Pow2(1) == 2 by { PowersOfTwo(); }
  }

  method Normalise(x: nat, msb: nat) returns (r: nat)
    requires Pow2(msb) <= x < Pow2(msb + 1)
    ensures Normalised(x, msb, r)
  {
    MsbPowers(msb);
    hide Pow2;
    if msb >= 128 {
      r := x / Pow2(msb - 127);
      NormaliseDown(x, r, Pow2(msb - 127), Pow2(msb));
    } else {
      r := x * Pow2(127 - msb);
      NormaliseUp(x, r, Pow2(127 - msb), Pow2(msb));
    }
  }

  lemma NormaliseDown(x: nat, r: nat, d: nat, m: nat)
    requires d > 0 && r == x / d && m == W * d && m <= x < 2 * m
    ensures W <= r < Q128 && r * m <= x * W < (r + 1) * m
  {
    DivBounds(x, d);
    FloorGalois(x, d, W);
    FloorGalois(x, d, Q128);
    MulMono(r * d, x, W);
    MulStrict(x, (r + 1) * d, W);
    assert (r * d) * W == r * (W * d);
    assert ((r + 1) * d) * W == (r + 1) * (W * d);
  }

  lemma NormaliseUp(x: nat, r: nat, d: nat, m: nat)
    requires m > 0 && r == x * d && m * d == W && m <= x < 2 * m
    ensures W <= r < Q128 && r * m <= x * W < (r + 1) * m
  {
    MulMono(m, x, d);
    MulStrict(x, 2 * m, d);
    assert (x * d) * m == x * (m * d);
  }

  // The fourteen rounds of the logarithm loop, on a normalised mantissa.
  method LogTwo(mantissa: nat, msb: nat) returns (log2: int)
    requires W <= mantissa < Q128
    ensures log2 == Assembled(msb, LogBits(mantissa, 14), 14)
  {
    hide Pow2, LogBits, Carry, Next, BitOr, Assembled;
    var r: nat := mantissa;
    log2 := (msb - 128) * Pow2(64);
    StartLog(msb);
    ghost var m: nat := 0;
    for i := 0 to 14
      invariant W <= r < Q128
      invariant log2 == Assembled(msb, m, i)
      invariant LogBits(mantissa, 14) == m * Pow2(14 - i) + LogBits(r, 14 - i)
    {
      BitsUnfold(r, m, 14 - i);
      Round(r);
      LoopRound(r);
      r := r * r / W;
      var f: nat := r / Q128;
      AppendBit(msb, m, i, f);
      log2 := BitOr(log2, f * Pow2(63 - i));
      r := r / Pow2(f);
      m := 2 * m + f;
    }
    NoBitsLeft(r);
  }

  // The tick of any price a pool can have: no price makes the lookup fail, and the answer is the
  // unique tick whose price range contains the price.
  method GetTickAtSqrtRatio(sqrtRatioX96: nat) returns (t: Result<int>)
    ensures !(MIN_SQRT_RATIO <= sqrtRatioX96 < MAX_SQRT_RATIO) ==> t == Failure("SQRT_RATIO")
    ensures MIN_SQRT_RATIO <= sqrtRatioX96 < MAX_SQRT_RATIO ==> t.Success? && IsTickAt(sqrtRatioX96, t.value)
  {
    if !(MIN_SQRT_RATIO <= sqrtRatioX96 < MAX_SQRT_RATIO) {
      return Failure("SQRT_RATIO");
    }
    hide Pow2, LogBits, SqrtAt, TickLow, TickHigh, LogTicks, Assembled, IsTickAt, Normalised;
    var sqrtRatioX128 := sqrtRatioX96 * Q32;
    var bit := MostSignificantBit(sqrtRatioX128);
    var msb := bit.value;
    var r := Normalise(sqrtRatioX128, msb);
    var log2 := LogTwo(r, msb);
    var logSqrt10001 := log2 * TICKS_PER_LOG;
    Lookup(sqrtRatioX96, msb, r, log2);
    var tickLow := (logSqrt10001 - LOW_MARGIN) / Q128;
    var tickHigh := (logSqrt10001 + HIGH_MARGIN) / Q128;
    if tickLow == tickHigh {
      return Success(tickLow);
    }
    var ratioHigh := GetSqrtRatioAtTick(tickHigh);
    t := Success(if ratioHigh.value <= sqrtRatioX96 then tickHigh else tickLow);
  }

  // The two candidates computed from the assembled logarithm, and the choice between them.
  lemma Lookup(p: nat, msb: nat, r: nat, log2: int)
    requires MIN_SQRT_RATIO <= p < MAX_SQRT_RATIO && Normalised(p * Q32, msb, r)
    requires log2 == Assembled(msb, LogBits(r, 14), 14)
    ensures var lo, hi := (log2 * TICKS_PER_LOG - LOW_MARGIN) / Q128, (log2 * TICKS_PER_LOG + HIGH_MARGIN) / Q128;
            && MIN_TICK <= hi <= MAX_TICK
            && IsTickAt(p, if lo == hi || p < SqrtAt(hi) then lo else hi)
  {
    hide Pow2, LogBits, SqrtAt, TickLow, TickHigh, LogTicks, Assembled, IsTickAt, Normalised;
    var u := LogBits(r, 14) + msb * 0x4000;
    AssembledLog(msb, LogBits(r, 14));
    PriceLog(p * Q32, msb, r);
    Decision(p, u);
    CandidatesAre(u);
  }

  lemma StartLog(msb: nat)
    ensures (msb - 128) * Pow2(64) == Assembled(msb, 0, 0)
  {
  }

  lemma LoopRound(r: nat)
    ensures 0 <= r * r / W && Carry(r) == r * r / W / Q128 && Next(r) == r * r / W / Pow2(Carry(r))
  {
    hide Pow2;
    FloorGalois(r * r, W, 0);
  }

  lemma NoBitsLeft(r: nat)
    ensures LogBits(r, 0) == 0 && Pow2(0) == 1
  {
  }

  lemma CandidatesAre(u: int)
    ensures TickLow(u) == (LogTicks(u) - LOW_MARGIN) / Q128
    ensures TickHigh(u) == (LogTicks(u) + HIGH_MARGIN) / Q128
  {
    hide LogTicks;
  }
}
