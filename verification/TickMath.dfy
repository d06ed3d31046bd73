// The tick <-> square root price correspondence of the concentrated liquidity pools: the
// twenty-constant product that computes a square root price from a tick, and the proof that it
// is strictly increasing.
module TickMath {
  import opened Arith
  import opened Results

  const MIN_TICK: int := -887272
  const MAX_TICK: int := 887272
  const MIN_SQRT_RATIO: nat := 4295128739
  const MAX_SQRT_RATIO: nat := 1461446703485210103287273052203988822378723970342

  const Q32: nat := 0x1_0000_0000
  const Q128: nat := 0x1_0000_0000_0000_0000_0000_0000_0000_0000
  const MAX_UINT256: nat := Q128 * Q128 - 1

  // The Q128 image of 1.0001^(-2^j / 2), as the table has it.
  function Magic(j: nat): (c: nat)
    requires j < 20
    ensures 0 < c < Q128
  {
    match j
    case 0 => 0xfffcb933bd6fad37aa2d162d1a594001
    case 1 => 0xfff97272373d413259a46990580e213a
    case 2 => 0xfff2e50f5f656932ef12357cf3c7fdcc
    case 3 => 0xffe5caca7e10e4e61c3624eaa0941cd0
    case 4 => 0xffcb9843d60f6159c9db58835c926644
    case 5 => 0xff973b41fa98c081472e6896dfb254c0
    case 6 => 0xff2ea16466c96a3843ec78b326b52861
    case 7 => 0xfe5dee046a99a2a811c461f1969c3053
    case 8 => 0xfcbe86c7900a88aedcffc83b479aa3a4
    case 9 => 0xf987a7253ac413176f2b074cf7815e54
    case 10 => 0xf3392b0822b70005940c7a398e4b70f3
    case 11 => 0xe7159475a2c29b7443b29c7fa6e889d9
    case 12 => 0xd097f3bdfd2022b8845ad8f792aa5825
    case 13 => 0xa9f746462d870fdf8a65dc1f90e061e5
    case 14 => 0x70d869a156d2a1b890bb3df62baf32f7
    case 15 => 0x31be135f97d08fd981231505542fcfa6
    case 16 => 0x9aa508b5b7a84e1c677de54f3e99bc9
    case 17 => 0x5d6af8dedb81196699c329225ee604
    case 18 => 0x2216e584f5fa1ea926041bedfe98
    case _ => 0x48a170391f7dc42444e8fa2
  }

  function MulShift(val: nat, mulBy: nat): nat {
    val * mulBy / Q128
  }

  // The product of the constants selected by the bits of bits, lowest bit first, from constant j on.
  function Chain(ratio: nat, bits: nat, j: nat): nat
    requires j <= 20
    decreases 20 - j
  {
    if j == 20 then ratio
    else Chain(if bits % 2 == 1 then MulShift(ratio, Magic(j)) else ratio, bits / 2, j + 1)
  }

  function RatioAt(absTick: nat): nat {
    Chain(Q128, absTick, 0)
  }

  // Lower bounds that survive the constants from j on: a value that starts at Threshold(j) or
  // above is at least Threshold(20) = 2^47 at the end, with 2^15 to spare at every truncation.
  function Threshold(j: nat): nat
    requires j <= 20
  {
    match j
    case 0 => 0x6361df8000000000000000000000000
    case 1 => 0x6360998000000000000000000000000
    case 2 => 0x635e0e0000000000000000000000000
    case 3 => 0x6358f78000000000000000000000000
    case 4 => 0x634ecb8000000000000000000000000
    case 5 => 0x633a770000000000000000000000000
    case 6 => 0x6311da8000000000000000000000000
    case 7 => 0x62c0d40000000000000000000000000
    case 8 => 0x621f8e0000000000000000000000000
    case 9 => 0x60e0168000000000000000000000000
    case 10 => 0x5e6d4b0000000000000000000000000
    case 11 => 0x59b6d40000000000000000000000000
    case 12 => 0x50fb890000000000000000000000000
    case 13 => 0x41fc708000000000000000000000000
    case 14 => 0x2bcf62c000000000000000000000000
    case 15 => 0x134fc44000000000000000000000000
    case 16 => 0x3c09b3800000000000000000000000
    case 17 => 0x24448a40000000000000000000000
    case 18 => 0xd3c0dd00000000000000000000
    case 19 => 0x1c328dc000000000000000
    case _ => 0x800000000000
  }

  lemma ThresholdStep(j: nat)
    requires j < 20
    ensures (Threshold(j + 1) + 0x8000) * Q128 <= Threshold(j) * Magic(j)
    ensures Threshold(j + 1) <= Threshold(j)
  {
  }

  lemma {:induction false} ChainFloor(ratio: nat, bits: nat, j: nat)
    requires j <= 20 && Threshold(j) <= ratio
    ensures Threshold(20) <= Chain(ratio, bits, j)
    decreases 20 - j
  {
    if j < 20 {
      ThresholdStep(j);
      if bits % 2 == 1 {
        MulMono(Threshold(j), ratio, Magic(j));
        FloorGalois(ratio * Magic(j), Q128, Threshold(j + 1));
        ChainFloor(MulShift(ratio, Magic(j)), bits / 2, j + 1);
      } else {
        ChainFloor(ratio, bits / 2, j + 1);
      }
    }
  }

  lemma RatioPositive(absTick: nat)
    ensures 0 < Threshold(20) <= RatioAt(absTick)
  {
    ChainFloor(Q128, absTick, 0);
  }

  // The Q128 ratio of a tick, before the conversion to Q96.
  function TickRatio(tick: int): nat {
    var ratio := RatioAt(if tick < 0 then -tick else tick);
    RatioPositive(if tick < 0 then -tick else tick);
    if tick > 0 then MAX_UINT256 / ratio else ratio
  }

  // Square root price of a tick as a Q96 number, rounded up.
  function SqrtAt(tick: int): nat {
    CeilDiv(TickRatio(tick), Q32)
  }

  // ----- strict monotonicity -----

  // x exceeds y by at least one part in 2^15 of x, with slack s on top.
  ghost predicate Gap(x: int, y: int, s: int) {
    x + s <= (x - y) * 0x8000
  }

  // Multiplying both sides by the same constant keeps the gap.
  lemma GapStep(x: nat, y: nat, j: nat)
    requires j < 20 && Gap(x, y, Threshold(j))
    ensures Gap(MulShift(x, Magic(j)), MulShift(y, Magic(j)), Threshold(j + 1))
  {
    var c, t := Magic(j), Threshold(j);
    ThresholdStep(j);
    DivBounds(x * c, Q128);
    DivBounds(y * c, Q128);
    MulMono(x + t, (x - y) * 0x8000, c);
    Scaled(x, y, t, c);
  }

  lemma Scaled(x: int, y: int, t: int, c: int)
    ensures (x + t) * c == x * c + t * c
    ensures (x - y) * 0x8000 * c == (x * c - y * c) * 0x8000
  {
  }

  lemma {:induction false} GapSurvives(x: nat, y: nat, bits: nat, j: nat)
    requires j <= 20 && Gap(x, y, Threshold(j))
    ensures Gap(Chain(x, bits, j), Chain(y, bits, j), Threshold(20))
    decreases 20 - j
  {
    if j < 20 {
      ThresholdStep(j);
      if bits % 2 == 1 {
        GapStep(x, y, j);
        GapSurvives(MulShift(x, Magic(j)), MulShift(y, Magic(j)), bits / 2, j + 1);
      } else {
        GapSurvives(x, y, bits / 2, j + 1);
      }
    }
  }

  // The product of the first j constants: what a run of low one bits accumulates.
  function Ones(j: nat): nat
    requires j <= 20
  {
    match j
    case 0 => 0x100000000000000000000000000000000
    case 1 => 0xfffcb933bd6fad37aa2d162d1a594001
    case 2 => 0xfff62bbb6d458ec3c792106391dc463e
    case 3 => 0xffe9114b9cf28d394c3203dbd44eb085
    case 4 => 0xffcede6f1d8be90b88f350424e84e5b7
    case 5 => 0xff9a80c1ada7480b1daa871d7c4d9b36
    case 6 => 0xff31e58d5a53c84fc142023ec1b1dfd7
    case 7 => 0xfe612f8183b1ea21b72fb71b03542ae4
    case 8 => 0xfcc1c2f380536bc67ee1ff564d1080b2
    case 9 => 0xf98ad8c8d7ecc0a3f8a42c9724cffb6a
    case 10 => 0xf33c480189b415235ad119427d89a1f6
    case 11 => 0xe71889a85903fd03cb7cc40bdf371a9c
    case 12 => 0xd09a9f3e93db5812d4820c2fc67a3e3a
    case 13 => 0xa9f973345b9e647c4163af91d00b255f
    case 14 => 0x70d9db6485f04ddd567e07c7b89f8e7c
    case 15 => 0x31beb65d91af63ae717a760be3b374dc
    case 16 => 0x9aa7036fd2355429c4030b032e1cf71
    case 17 => 0x5d6c2af97aaa8de0e5a6bf23f5e547
    case 18 => 0x221755388a6658e120f4a3c503cf
    case 19 => 0x48a25e36942a4fc0c1f899f
    case _ => 0x149b7873d84d48
  }

  lemma OnesStep(j: nat)
    requires j < 20
    ensures Ones(j + 1) == MulShift(Ones(j), Magic(j))
  {
  }

  // Carrying from a run of j ones into bit j lowers the ratio visibly, for each of the twenty bits.
  lemma CarryGap(j: nat)
    requires j < 20
    ensures Gap(Ones(j), Magic(j), Threshold(j + 1))
  {
  }

  lemma ChainUnfold(ratio: nat, bits: nat, j: nat)
    requires j < 20
    ensures bits % 2 == 0 ==> Chain(ratio, bits, j) == Chain(ratio, bits / 2, j + 1)
    ensures bits % 2 == 1 ==> Chain(ratio, bits, j) == Chain(MulShift(ratio, Magic(j)), bits / 2, j + 1)
  {
  }

  lemma FirstFactor(c: nat)
    ensures MulShift(Q128, c) == c
  {
    DivUnique(Q128 * c, Q128, c);
  }

  lemma {:induction false} AdjacentRatios(bits: nat, j: nat)
    requires j < 20 && bits + 1 < Pow2(20 - j)
    ensures Gap(Chain(Ones(j), bits, j), Chain(Q128, bits + 1, j), Threshold(20))
    decreases 20 - j
  {
    hide Chain, Magic, Ones, MulShift, Threshold;
    var x, y, c := Ones(j), Chain(Q128, bits + 1, j), Magic(j);
    ChainUnfold(x, bits, j);
    ChainUnfold(Q128, bits + 1, j);
    if bits % 2 == 0 {
      CarryGap(j);
      FirstFactor(c);
      assert (bits + 1) / 2 == bits / 2;
      GapSurvives(x, c, bits / 2, j + 1);
      assert y == Chain(c, bits / 2, j + 1);
    } else {
      OnesStep(j);
      AdjacentRatios(bits / 2, j + 1);
      assert y == Chain(Q128, bits / 2 + 1, j + 1);
    }
  }

  lemma {:induction false} ChainCeiling(ratio: nat, bits: nat, j: nat)
    requires j <= 20
    ensures Chain(ratio, bits, j) <= ratio
    decreases 20 - j
  {
    if j < 20 {
      MulMono(Magic(j), Q128, ratio);
      FloorMono(ratio * Magic(j), ratio * Q128, Q128);
      DivUnique(ratio * Q128, Q128, ratio);
      ChainCeiling(if bits % 2 == 1 then MulShift(ratio, Magic(j)) else ratio, bits / 2, j + 1);
    }
  }

  lemma RatioGap(absTick: nat)
    requires absTick + 1 < 0x100000
    ensures Gap(RatioAt(absTick), RatioAt(absTick + 1), Threshold(20)) && RatioAt(absTick) <= Q128
  {
    Pow2Literals();
    AdjacentRatios(absTick, 0);
    ChainCeiling(Q128, absTick, 0);
  }

  // Dividing a larger constant by the two ratios widens the gap instead of closing it.
  lemma InvertedGap(x: nat, y: nat)
    requires 0 < y && x <= Q128 && x <= (x - y) * 0x8000
    ensures MAX_UINT256 / x + Q32 <= MAX_UINT256 / y
  {
    var q := MAX_UINT256 / x;
    DivBounds(MAX_UINT256, x);
    MulMono(0x8000 * y, x * 0x7fff, q + Q32);
    assert (x * 0x7fff) * (q + Q32) == (q * x) * 0x7fff + x * 0x7fff * Q32;
    assert (0x8000 * y) * (q + Q32) == 0x8000 * ((q + Q32) * y);
    FloorGalois(MAX_UINT256, y, q + Q32);
  }

  lemma CeilGap(a: nat, b: nat)
    requires a + Q32 <= b
    ensures CeilDiv(a, Q32) < CeilDiv(b, Q32)
  {
  }

  lemma StepBelow(a: int)
    requires 0 <= a && a + 1 < 0x100000
    ensures SqrtAt(-a - 1) < SqrtAt(-a)
  {
    RatioGap(a);
    hide Chain;
    CeilGap(RatioAt(a + 1), RatioAt(a));
  }

  lemma RatioFacts(a: nat)
    requires a + 1 < 0x100000
    ensures 0 < RatioAt(a + 1) && RatioAt(a) <= Q128
    ensures RatioAt(a) <= (RatioAt(a) - RatioAt(a + 1)) * 0x8000
  {
    RatioGap(a);
    RatioPositive(a + 1);
    hide RatioAt;
  }

  lemma StepAbove(a: nat)
    requires a + 1 < 0x100000
    ensures SqrtAt(a) < SqrtAt(a + 1)
  {
    hide *;
    RatioFacts(a);
    FirstRatio();
    StepAboveValues(a, RatioAt(a), RatioAt(a + 1));
    CeilGap(TickRatio(a), TickRatio(a + 1));
    SqrtAtIs(a);
    SqrtAtIs(a + 1);
  }

  lemma SqrtAtIs(tick: int)
    ensures SqrtAt(tick) == CeilDiv(TickRatio(tick), Q32)
  {
    hide TickRatio;
  }

  lemma StepAboveValues(a: nat, x: nat, y: nat)
    requires x == RatioAt(a) && y == RatioAt(a + 1) && 0 < y && x <= Q128
    requires x <= (x - y) * 0x8000 && (a == 0 ==> x == Q128)
    ensures TickRatio(a) + Q32 <= TickRatio(a + 1)
  {
    hide RatioAt;
    if a == 0 {
      FloorGalois(MAX_UINT256, y, Q128 + Q32);
    } else {
      InvertedGap(x, y);
    }
  }

  lemma FirstRatio()
    ensures RatioAt(0) == Q128
  {
    NoBits(0);
  }

  lemma {:induction false} NoBits(j: nat)
    requires j <= 20
    ensures Chain(Q128, 0, j) == Q128
    decreases 20 - j
  {
    if j < 20 {
      NoBits(j + 1);
    }
  }

  lemma SqrtAtStep(tick: int)
    requires -0x100000 < tick && tick + 1 < 0x100000
    ensures SqrtAt(tick) < SqrtAt(tick + 1)
  {
    if tick < 0 {
      StepBelow(-tick - 1);
    } else {
      StepAbove(tick);
    }
  }

  // A higher tick has a strictly higher price.
  lemma {:induction false} SqrtAtIncreasing(low: int, high: int)
    requires -0x100000 < low < high < 0x100000
    ensures SqrtAt(low) < SqrtAt(high)
    decreases high - low
  {
    hide *;
    SqrtAtStep(low);
    if low + 1 < high {
      SqrtAtIncreasing(low + 1, high);
    }
  }

  // The extreme ticks have the extreme prices: 887272 has eleven one bits.
  lemma ExtremeRatio()
    ensures RatioAt(887272) == 0x1000276a221a17501
  {
    ExtremeHighBits();
    hide Chain;
    ChainUnfold(0x100000000000000000000000000000000, 0xd89e8, 0);
    ChainUnfold(0x100000000000000000000000000000000, 0x6c4f4, 1);
    ChainUnfold(0x100000000000000000000000000000000, 0x3627a, 2);
    ChainUnfold(0x100000000000000000000000000000000, 0x1b13d, 3);
    ChainUnfold(0xffe5caca7e10e4e61c3624eaa0941cd0, 0xd89e, 4);
    ChainUnfold(0xffe5caca7e10e4e61c3624eaa0941cd0, 0x6c4f, 5);
    ChainUnfold(0xff7d10c63a977157da4140deb6f31a7b, 0x3627, 6);
    ChainUnfold(0xfeac1d4052f7714818b490c1138ea058, 0x1b13, 7);
    ChainUnfold(0xfd0c3654da9e033741d1a9f93707f6f6, 0xd89, 8);
    ChainUnfold(0xf9d459c5817dbafa9e376ae84dcfeb8b, 0x6c4, 9);
    ChainUnfold(0xf9d459c5817dbafa9e376ae84dcfeb8b, 0x362, 10);
    ChainUnfold(0xf9d459c5817dbafa9e376ae84dcfeb8b, 0x1b1, 11);
    ChainUnfold(0xe183ac4e25d5949966242a64e9c80e2f, 0xd8, 12);
    ChainUnfold(0xe183ac4e25d5949966242a64e9c80e2f, 0x6c, 13);
    assert RatioAt(887272) == Chain(Q128, 887272, 0);
  }

  lemma ExtremeHighBits()
    ensures Chain(0xe183ac4e25d5949966242a64e9c80e2f, 0x36, 14) == 0x1000276a221a17501
  {
    hide Chain;
    ChainUnfold(0xe183ac4e25d5949966242a64e9c80e2f, 0x36, 14);
    ChainUnfold(0xe183ac4e25d5949966242a64e9c80e2f, 0x1b, 15);
    ChainUnfold(0x2bd1a4c5d2a1181aca1ef15e64c2e3cf, 0xd, 16);
    ChainUnfold(0x1a785cbbdc050483e3be5812760be73, 0x6, 17);
    ChainUnfold(0x1a785cbbdc050483e3be5812760be73, 0x3, 18);
    ChainUnfold(0x3865a6455d07d2bc87c5956d2e, 0x1, 19);
    EmptyChain(0x1000276a221a17501, 0);
  }

  lemma EmptyChain(ratio: nat, bits: nat)
    ensures Chain(ratio, bits, 20) == ratio
  {
  }

  lemma SqrtAtBounds()
    ensures SqrtAt(MIN_TICK) == MIN_SQRT_RATIO && SqrtAt(MAX_TICK) == MAX_SQRT_RATIO
  {
    ExtremeRatio();
  }

  function ShiftRight(a: nat, k: nat): nat {
    if k == 0 then a else ShiftRight(a, k - 1) / 2
  }

  // Bit k of a mask test (a & (1 << k)) != 0.
  predicate BitSet(a: nat, k: nat) {
    ShiftRight(a, k) % 2 == 1
  }

  lemma ShiftUnfold(a: nat, k: nat)
    ensures BitSet(a, k) == (ShiftRight(a, k) % 2 == 1)
    ensures ShiftRight(a, k + 1) == ShiftRight(a, k) / 2
  {
  }

  lemma RatioDefined(absTick: nat, ratio: nat)
    requires Chain(ratio, ShiftRight(absTick, 20), 20) == Chain(Q128, ShiftRight(absTick, 0), 0)
    ensures ratio == RatioAt(absTick) && ratio > 0 && MAX_UINT256 / ratio >= 0
  {
    RatioPositive(absTick);
    FloorGalois(MAX_UINT256, ratio, 0);
  }

  lemma RoundUpToQ96(tick: int, ratio: nat, q: nat)
    requires ratio == RatioAt(if tick < 0 then -tick else tick) && ratio > 0
    requires q == if tick > 0 then MAX_UINT256 / ratio else ratio
    ensures SqrtAt(tick) == if q % Q32 > 0 then q / Q32 + 1 else q / Q32
  {
  }

  // The twenty conditional multiplications, as a loop over the table.
  method GetSqrtRatioAtTick(tick: int) returns (r: Result<nat>)
    ensures r == if MIN_TICK <= tick <= MAX_TICK then Success(SqrtAt(tick)) else Failure("TICK")
  {
    if !(MIN_TICK <= tick <= MAX_TICK) {
      return Failure("TICK");
    }
    hide *;
    var absTick := if tick < 0 then -tick else tick;
    var ratio := Q128;
    for k := 0 to 20
      invariant Chain(ratio, ShiftRight(absTick, k), k) == Chain(Q128, ShiftRight(absTick, 0), 0)
    {
      ChainUnfold(ratio, ShiftRight(absTick, k), k);
      ShiftUnfold(absTick, k);
      if BitSet(absTick, k) {
        ratio := MulShift(ratio, Magic(k));
      }
    }
    RatioDefined(absTick, ratio);
    var q := if tick > 0 then MAX_UINT256 / ratio else ratio;
    RoundUpToQ96(tick, ratio, q);
    q := if q % Q32 > 0 then q / Q32 + 1 else q / Q32;
    r := Success(q);
  }
}
