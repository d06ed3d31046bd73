// The twenty constants of the tick prices are the powers they stand for, correctly rounded.
module TickConstants {
  import opened Arith
  import opened TickMath

  // 2^256 * 1.0001^(-2^j / 2), rounded down.
  function Wide(j: nat): nat
    requires j < 20
  {
    match j
    case 0 => 0xfffcb933bd6fad37_aa2d162d1a594001_733071ca63262237_570e09e3edc8f840
    case 1 => 0xfff97272373d4132_59a46990580e2139_b8e3eb6b6eb57c60_c221885b89548c60
    case 2 => 0xfff2e50f5f656932_ef12357cf3c7fdcb_98a5078da53efa26_beae7803446f0f10
    case 3 => 0xffe5caca7e10e4e6_1c3624eaa0941ccf_f04a8a212009f027_f9bc0aa90ef37333
    case 4 => 0xffcb9843d60f6159_c9db58835c926643_ad7c09ed8821ecfd_3542ca2e646b1ab8
    case 5 => 0xff973b41fa98c081_472e6896dfb254bf_81ef047c569db3b2_81e42e93fd42ce86
    case 6 => 0xff2ea16466c96a38_43ec78b326b52860_97e9315c35bffb5c_6ae79a3971d4b9fb
    case 7 => 0xfe5dee046a99a2a8_11c461f1969c3052_f544235f4d64fdc8_79853b3caf63cfc3
    case 8 => 0xfcbe86c7900a88ae_dcffc83b479aa3a3_dc268667328f4b9a_0cf26b8025674fd4
    case 9 => 0xf987a7253ac41317_6f2b074cf7815e53_facbf1906fa65ab8_4404323cf11ce80f
    case 10 => 0xf3392b0822b70005_940c7a398e4b70f2_ca02c578b1d42159_9c54537e8f677256
    case 11 => 0xe7159475a2c29b74_43b29c7fa6e889d8_9a78853263da3b31_83b9d1cf5c6ce2da
    case 12 => 0xd097f3bdfd2022b8_845ad8f792aa5825_6a3df3fc12a5c155_c2a4a16fd5e01f2b
    case 13 => 0xa9f746462d870fdf_8a65dc1f90e061e4_fa160424952d52a6_6c57f61fb9cdb255
    case 14 => 0x70d869a156d2a1b8_90bb3df62baf32f6_c49744d5020b5c91_44efb8f73f24f4ed
    case 15 => 0x31be135f97d08fd9_81231505542fcfa5_86c1e84cfea4ad05_aaaecca63fbacc3f
    case 16 => 0x9aa508b5b7a84e1_c677de54f3e99bc8_fdac1d580d2ea031_ae1e60fc495508de
    case 17 => 0x5d6af8dedb8119_6699c329225ee604_4e0e6dc91bb2843f_8e3ab8d4dc789df1
    case 18 => 0x2216e584f5fa_1ea926041bedfe97_b74dcb4ff36b9c96_f9edb4e1a5f570e4
    case _ => 0x48a1703_91f7dc42444e8fa2_3b8ad7d66987e9cb_4878020479cec6fe
  }

  // What twice the rounding of the one before can leave a constant off by.
  function Margin(j: nat): nat {
    4 * Pow2(j)
  }

  function Below(j: nat): int
    requires j < 20
  {
    Wide(j) - Margin(j) + 2
  }

  function Above(j: nat): int
    requires j < 20
  {
    Wide(j) + Margin(j) - 1
  }

  // From one constant to the next the bounds are squared.
  lemma WideStep(j: nat)
    requires j < 19
    ensures 0 < Below(j) && 0 < Below(j + 1) && 0 < Above(j)
    ensures Below(j + 1) * (Q128 * Q128) <= Below(j) * Below(j)
    ensures Above(j) * Above(j) <= Above(j + 1) * (Q128 * Q128)
  {
    Margins();
  }

  lemma Margins()
    ensures Margin(0) == 4 && Margin(1) == 8 && Margin(2) == 16 && Margin(3) == 32 && Margin(4) == 64 && Margin(5) == 128
    ensures Margin(6) == 256 && Margin(7) == 512 && Margin(8) == 1024 && Margin(9) == 2048 && Margin(10) == 4096
    ensures Margin(11) == 8192 && Margin(12) == 16384 && Margin(13) == 32768 && Margin(14) == 65536 && Margin(15) == 131072
    ensures Margin(16) == 262144 && Margin(17) == 524288 && Margin(18) == 1048576 && Margin(19) == 2097152
  {
  }

  lemma WideStart()
    ensures 0 < Below(0) && 0 < Above(0)
    ensures Below(0) * Below(0) * 10_001 <= Q128 * Q128 * (Q128 * Q128) * 10_000 <= Above(0) * Above(0) * 10_001
  {
    Margins();
  }

  // Bounds whose squares bracket a ratio, squared: b^2 P <= U^2 Q gives c^2 P^2 <= U^2 Q^2 for c U <= b^2.
  lemma SquareBelow(b: nat, c: nat, unit: nat, p: nat, q: nat)
    requires 0 < unit && c * unit <= b * b && b * b * p <= unit * unit * q
    ensures c * c * (p * p) <= unit * unit * (q * q)
  {
    SquareMono(c * unit, b * b);
    MulMono(0, p, p);
    MulMono(c * unit * (c * unit), b * b * (b * b), p * p);
    MulMono(0, b, b);
    MulMono(0, b * b, p);
    SquareMono(b * b * p, unit * unit * q);
    Regrouped(b * b, p);
    Regrouped(unit * unit, q);
    Regrouped(c, unit);
    MulStrict(0, unit, unit);
    Cancelled(c * c * (p * p), unit * unit * (q * q), unit * unit, c, p, q);
  }

  lemma SquareAbove(a: nat, c: nat, unit: nat, p: nat, q: nat)
    requires 0 < unit && a * a <= c * unit && unit * unit * q <= a * a * p
    ensures unit * unit * (q * q) <= c * c * (p * p)
  {
    MulMono(0, a, a);
    SquareMono(a * a, c * unit);
    MulMono(0, p, p);
    MulMono(a * a * (a * a), c * unit * (c * unit), p * p);
    MulMono(0, unit, unit);
    MulMono(0, unit * unit, q);
    SquareMono(unit * unit * q, a * a * p);
    Regrouped(a * a, p);
    Regrouped(unit * unit, q);
    Regrouped(c, unit);
    MulStrict(0, unit, unit);
    Cancelled(unit * unit * (q * q), c * c * (p * p), unit * unit, c, p, q);
  }

  lemma SquareMono(a: nat, b: nat)
    requires a <= b
    ensures a * a <= b * b
  {
    MulMono(a, b, a);
    MulMono(a, b, b);
  }

  lemma Regrouped(a: int, b: int)
    ensures a * b * (a * b) == a * a * (b * b)
  {
    assert a * b * (a * b) == a * (b * (a * b)) == a * (a * (b * b));
  }

  // What is left once the common factor of both sides is gone.
  lemma Cancelled(x: int, y: int, v: int, c: int, p: int, q: int)
    requires 0 < v
    ensures c * c * v * (p * p) == c * c * (p * p) * v && v * v * (q * q) == v * (q * q) * v
    ensures x * v <= y * v ==> x <= y
  {
    if x * v <= y * v { MulCancel(x, y, v); }
  }

  lemma {:induction false} WideIsPower(j: nat)
    requires j < 20
    ensures 0 < Below(j) && 0 < Above(j)
    ensures Below(j) * Below(j) * Sq(10_001, j) <= Q128 * Q128 * (Q128 * Q128) * Sq(10_000, j)
    ensures Q128 * Q128 * (Q128 * Q128) * Sq(10_000, j) <= Above(j) * Above(j) * Sq(10_001, j)
  {
    hide Below, Above;
    if j == 0 {
      WideStart();
    } else {
      WideIsPower(j - 1);
      WideStep(j - 1);
      AboveGrows(j);
      SqOuter(10_001, j - 1);
      SqOuter(10_000, j - 1);
      hide Sq, Q128;
      SquareBelow(Below(j - 1), Below(j), Q128 * Q128, Sq(10_001, j - 1), Sq(10_000, j - 1));
      SquareAbove(Above(j - 1), Above(j), Q128 * Q128, Sq(10_001, j - 1), Sq(10_000, j - 1));
    }
  }

  lemma AboveGrows(j: nat)
    requires j < 20
    ensures 0 < Below(j) && 0 < Above(j)
  {
    Margins();
  }

  // The tabulated constant is the narrow one, rounded.
  lemma Narrow(j: nat)
    requires j < 20
    ensures (2 * Magic(j) - 1) * Q128 < 2 * Below(j) && 2 * Above(j) < (2 * Magic(j) + 1) * Q128
  {
    Margins();
  }

  lemma RoundedBelow(m: nat, unit: nat, b: nat, p: nat, q: nat)
    requires 0 < unit && 0 < p && m * unit < 2 * b && b * b * p <= unit * unit * (unit * unit) * q
    ensures m * m * p < 4 * (unit * unit) * q
  {
    MulMono(0, m, unit);
    SquareStrict(m * unit, 2 * b);
    MulStrict(m * unit * (m * unit), 2 * b * (2 * b), p);
    Regrouped(m, unit);
    MulStrict(0, unit, unit);
    FourTimes(b, p);
    Smaller(m * m * p, 4 * (unit * unit) * q, unit * unit, m, p, q);
  }

  lemma RoundedAbove(m: nat, unit: nat, a: nat, p: nat, q: nat)
    requires 0 < unit && 0 < p && 2 * a < m * unit && unit * unit * (unit * unit) * q <= a * a * p
    ensures 4 * (unit * unit) * q < m * m * p
  {
    SquareStrict(2 * a, m * unit);
    MulStrict(2 * a * (2 * a), m * unit * (m * unit), p);
    Regrouped(m, unit);
    MulStrict(0, unit, unit);
    FourTimes(a, p);
    Smaller(4 * (unit * unit) * q, m * m * p, unit * unit, m, p, q);
  }

  lemma SquareStrict(a: nat, b: nat)
    requires a < b
    ensures a * a < b * b
  {
    MulMono(a, b, a);
    MulStrict(a, b, b);
  }

  lemma FourTimes(b: int, p: int)
    ensures 2 * b * (2 * b) * p == 4 * (b * b * p)
  {
    assert 2 * b * (2 * b) == 4 * (b * b);
  }

  lemma Smaller(x: int, y: int, v: int, m: int, p: int, q: int)
    requires 0 < v
    ensures m * m * v * p == m * m * p * v && 4 * (v * v * q) == 4 * v * q * v
    ensures x * v < y * v ==> x < y
  {
    if x >= y { MulMono(y, x, v); }
  }

  lemma {:induction false} SqPositive(x: nat, k: nat)
    requires 0 < x
    ensures 0 < Sq(x, k)
    decreases k
  {
    if k > 0 {
      MulStrict(0, x, x);
      SqPositive(x * x, k - 1);
    }
  }

  // Constant j is 2^128 * 1.0001^(-2^j / 2), rounded to the nearest integer: doubled, and with its square
  // compared, it is off by less than one either way.
  lemma MagicIsRounded(j: nat)
    requires j < 20
    ensures (2 * Magic(j) - 1) * (2 * Magic(j) - 1) * Sq(10_001, j) < 4 * Pow2(256) * Sq(10_000, j)
    ensures 4 * Pow2(256) * Sq(10_000, j) < (2 * Magic(j) + 1) * (2 * Magic(j) + 1) * Sq(10_001, j)
  {
    hide *;
    Narrow(j);
    WideIsPower(j);
    SqPositive(10_001, j);
    UnitSquared(Q128);
    RoundedBelow(2 * Magic(j) - 1, Q128, Below(j), Sq(10_001, j), Sq(10_000, j));
    RoundedAbove(2 * Magic(j) + 1, Q128, Above(j), Sq(10_001, j), Sq(10_000, j));
  }

  lemma UnitSquared(u: nat)
    requires u == Q128
    ensures u * u == Pow2(256) && 0 < u
  {
    Pow2Literals();
    Pow2Add(128, 128);
  }
}
