/** The binary kernel of src/binfixed.rs: logarithm, exponential and fractional
    power at 62 fractional bits, in signed 128-bit integers. */
module BinFixed {
  import opened Arithmetic
  import opened Horner
  import opened WideInt
  import opened Words
  import opened Wrappers

  const ONE18: int := 1_000_000_000_000_000_000
  const LN2_62: int := 3_196_577_161_300_663_915
  const INV_LN2_30: int := 1_549_082_005
  const SQRT2_HALF_62: int := 3_260_954_456_333_195_553
  const EXP_ZERO_ABOVE: int := 100 * LN2_62

  /** `>> 61`, `>> 62` and `>> 92` floor, also below zero. */
  const TWO_POW_61: int := 2_305_843_009_213_693_952
  const TWO_POW_92: int := 4_951_760_157_141_521_099_596_496_896

  /** ATANH_62[i], meant to be round(2^62 / (2i + 1)). */
  function AtanhCoeff(i: nat): int {
    match i
    case 0 => 4_611_686_018_427_387_904
    case 1 => 1_537_228_672_809_129_301
    case 2 => 922_337_203_685_477_581
    case 3 => 658_812_288_346_769_701
    case 4 => 512_409_557_603_043_100
    case 5 => 419_244_183_493_398_900
    case 6 => 354_745_078_340_568_300
    case 7 => 307_445_734_561_825_860
    case 8 => 271_275_648_142_787_524
    case 9 => 242_720_316_759_336_205
    case 10 => 219_604_096_115_589_900
    case 11 => 200_508_087_757_712_518
    case _ => 184_467_440_737_095_516
  }

  /** EXP_62[i], meant to be (-1)^i * round(2^62 / i!). */
  function ExpCoeff(i: nat): int {
    match i
    case 0 => 4_611_686_018_427_387_904
    case 1 => -4_611_686_018_427_387_904
    case 2 => 2_305_843_009_213_693_952
    case 3 => -768_614_336_404_564_651
    case 4 => 192_153_584_101_141_163
    case 5 => -38_430_716_820_228_233
    case 6 => 6_405_119_470_038_039
    case 7 => -915_017_067_148_291
    case 8 => 114_377_133_393_536
    case 9 => -12_708_570_377_060
    case 10 => 1_270_857_037_706
    case 11 => -115_532_457_973
    case 12 => 9_627_704_831
    case 13 => -740_592_679
    case 14 => 52_899_477
    case 15 => -3_526_632
    case 16 => 220_414
    case 17 => -12_966
    case 18 => 720
    case 19 => -38
    case _ => 2
  }

  // -------------------------------------------------------------- the tables

  function Factorial(n: nat): (f: int)
    ensures f > 0
  {
    if n == 0 then 1 else n * Factorial(n - 1)
  }

  /** The exact coefficients of 1 + u/3 + u^2/5 + ... and of exp(-s). */
  function AtanhExact(i: nat): real {
    1.0 / (2 * i + 1) as real
  }

  function ExpExact(i: nat): real {
    (if i % 2 == 0 then 1.0 else -1.0) / Factorial(i) as real
  }

  /** A quotient rounded to nearest, as an integer inequality. */
  lemma NearestQuotient(c: int, sign: int, d: int)
    requires d > 0 && -d <= 2 * (c * d - sign * ONE62) <= d
    ensures -0.5 <= c as real - ONE62 as real * (sign as real / d as real) <= 0.5
  {
    var q := sign as real / d as real;
    assert q * d as real == sign as real;
    var gap := c as real - ONE62 as real * q;
    assert gap * d as real == (c * d - sign * ONE62) as real by {
      assert (c * d) as real == c as real * d as real;
      assert (sign * ONE62) as real == sign as real * ONE62 as real;
    }
    if gap > 0.5 {
      Exceeds(gap, d as real);
    }
    if gap < -0.5 {
      Exceeds(-gap, d as real);
    }
  }

  lemma Exceeds(gap: real, d: real)
    requires gap > 0.5 && d > 0.0
    ensures 2.0 * (gap * d) > d
  {
  }

  lemma AtanhTable()
    ensures Rounded(AtanhCoeff, AtanhExact, 12)
  {
    forall i: nat | 0 <= i <= 12
      ensures -0.5 <= AtanhCoeff(i) as real - ONE62 as real * AtanhExact(i) <= 0.5
    {
      assert i == 0 || i == 1 || i == 2 || i == 3 || i == 4 || i == 5 || i == 6 || i == 7 || i == 8 || i == 9 || i == 10 || i == 11 || i == 12;
      NearestQuotient(AtanhCoeff(i), 1, 2 * i + 1);
    }
  }

  lemma Factorials()
    ensures Factorial(0) == 1
    ensures Factorial(1) == 1
    ensures Factorial(2) == 2
    ensures Factorial(3) == 6
    ensures Factorial(4) == 24
    ensures Factorial(5) == 120
    ensures Factorial(6) == 720
    ensures Factorial(7) == 5_040
    ensures Factorial(8) == 40_320
    ensures Factorial(9) == 362_880
    ensures Factorial(10) == 3_628_800
    ensures Factorial(11) == 39_916_800
    ensures Factorial(12) == 479_001_600
    ensures Factorial(13) == 6_227_020_800
    ensures Factorial(14) == 87_178_291_200
    ensures Factorial(15) == 1_307_674_368_000
    ensures Factorial(16) == 20_922_789_888_000
    ensures Factorial(17) == 355_687_428_096_000
    ensures Factorial(18) == 6_402_373_705_728_000
    ensures Factorial(19) == 121_645_100_408_832_000
    ensures Factorial(20) == 2_432_902_008_176_640_000
  {
    assert Factorial(1) == 1;
    assert Factorial(2) == 2;
    assert Factorial(3) == 6;
    assert Factorial(4) == 24;
    assert Factorial(5) == 120;
    assert Factorial(6) == 720;
    assert Factorial(7) == 5_040;
    assert Factorial(8) == 40_320;
    assert Factorial(9) == 362_880;
    assert Factorial(10) == 3_628_800;
    assert Factorial(11) == 39_916_800;
    assert Factorial(12) == 479_001_600;
    assert Factorial(13) == 6_227_020_800;
    assert Factorial(14) == 87_178_291_200;
    assert Factorial(15) == 1_307_674_368_000;
    assert Factorial(16) == 20_922_789_888_000;
    assert Factorial(17) == 355_687_428_096_000;
    assert Factorial(18) == 6_402_373_705_728_000;
    assert Factorial(19) == 121_645_100_408_832_000;
    assert Factorial(20) == 2_432_902_008_176_640_000;
  }

  lemma ExpTable()
    ensures Rounded(ExpCoeff, ExpExact, 20)
  {
    Factorials();
    forall i: nat | 0 <= i <= 20
      ensures -0.5 <= ExpCoeff(i) as real - ONE62 as real * ExpExact(i) <= 0.5
    {
      assert i == 0 || i == 1 || i == 2 || i == 3 || i == 4 || i == 5 || i == 6 || i == 7 || i == 8 || i == 9 || i == 10 || i == 11 || i == 12 || i == 13 || i == 14 || i == 15 || i == 16 || i == 17 || i == 18 || i == 19 || i == 20;
      NearestQuotient(ExpCoeff(i), if i % 2 == 0 then 1 else -1, Factorial(i));
    }
  }

  // -------------------------------------------------------------- the logarithm

  /** Rust's signed division truncates toward zero. */
  function TruncDiv(n: int, d: int): int
    requires d > 0
  {
    if n >= 0 then n / d else -((-n) / d)
  }

  /** Doubles until `edge` is reached: the mantissa and how often. */
  function Normalised(x: int, edge: int): (r: (int, nat))
    requires 0 < x
    ensures r.0 == x * Pow2(r.1)
    ensures edge <= r.0 && (r.1 > 0 ==> r.0 < 2 * edge) && (r.1 == 0 ==> r.0 == x)
    decreases edge - x
  {
    if x >= edge then (x, 0)
    else
      var (m, k) := Normalised(2 * x, edge);
      (m, k + 1)
  }

  lemma ShiftCount(x: int, edge: int, n: nat)
    requires 0 < x && edge <= Pow2(n)
    ensures Normalised(x, edge).1 <= n
  {
    var (m, k) := Normalised(x, edge);
    if k > n {
      MulMono(1, x, Pow2(k));
      Pow2Mono(n + 1, k);
    }
  }

  lemma SmallPowers()
    ensures Pow2(60) == 1_152_921_504_606_846_976 && Pow2(62) == ONE62
  {
    Pow2At64();
    assert Pow2(64) == 2 * Pow2(63) == 4 * Pow2(62) == 8 * Pow2(61) == 16 * Pow2(60);
  }

  function Ratio(m: int): int
    requires m > 0
  {
    TruncDiv((m - ONE62) * ONE62, m + ONE62)
  }

  /** 2 atanh(t) by the floored table. */
  function TwiceAtanh(t: int): int {
    t * Floored(AtanhCoeff, t * t / ONE62, 0, 12) / TWO_POW_61
  }

  /** ln m, as 2 atanh((m - 1) / (m + 1)). */
  function LnMantissa(m: int): int
    requires m > 0
  {
    TwiceAtanh(Ratio(m))
  }

  /** -ln x for 0 < x. */
  function NegLog62(x: int): int
    requires x > 0
  {
    var (m, k) := Normalised(x, SQRT2_HALF_62);
    k * LN2_62 - LnMantissa(m)
  }

  const T_MAX: int := 792_000_000_000_000_000
  const U_MAX: int := 136_016_198_304_389_490

  /** The symmetric window keeps |t| below 0.1718 and gives it the sign of ln m. */
  lemma RatioBound(m: int)
    requires SQRT2_HALF_62 <= m < 2 * SQRT2_HALF_62
    ensures -T_MAX <= Ratio(m) <= T_MAX
    ensures if m >= ONE62 then 0 <= Ratio(m) else Ratio(m) <= 0
  {
    var n := if m >= ONE62 then (m - ONE62) * ONE62 else (ONE62 - m) * ONE62;
    FloorAdjoint(0, n, m + ONE62);
    FloorAdjoint(T_MAX + 1, n, m + ONE62);
    assert (T_MAX + 1) * (m + ONE62) > n;
  }

  lemma SquareBound(t: int)
    requires -T_MAX <= t <= T_MAX
    ensures 0 <= t * t <= T_MAX * T_MAX
    ensures 0 <= t * t / ONE62 <= U_MAX
  {
    if t >= 0 {
      MulMono(t, T_MAX, t);
      MulMono(t, T_MAX, T_MAX);
    } else {
      MulMono(-t, T_MAX, -t);
      MulMono(-t, T_MAX, T_MAX);
      assert t * t == (-t) * (-t);
    }
  }

  lemma AtanhCoeffs(i: nat)
    requires i <= 12
    ensures 0 < AtanhCoeff(i) <= ONE62
  {
  }

  /** Every accumulator of the atanh pass stays between 0 and 2, so no product leaves i128. */
  lemma {:induction false} AtanhPass(u: int, i: nat)
    requires 0 <= u <= U_MAX && i <= 12
    ensures 0 <= Floored(AtanhCoeff, u, i, 12) <= 2 * ONE62
    decreases 12 - i
  {
    AtanhCoeffs(i);
    if i < 12 {
      AtanhPass(u, i + 1);
      var p := Floored(AtanhCoeff, u, i + 1, 12);
      ScaledDown(p, 2 * ONE62, u);
    }
  }

  lemma ScaledDown(p: int, bound: int, u: int)
    requires 0 <= p <= bound && 0 <= u <= ONE62
    ensures 0 <= p * u <= bound * u
    ensures 0 <= p * u / ONE62 <= bound * u / ONE62
  {
    MulMono(0, p, u);
    MulMono(p, bound, u);
    DivMono(0, p * u, ONE62);
    DivMono(p * u, bound * u, ONE62);
  }

  /** ln m is below ln 2 on the whole window, and not positive up to 1. */
  lemma LnMantissaBound(m: int)
    requires SQRT2_HALF_62 <= m < 2 * SQRT2_HALF_62
    ensures -LN2_62 < LnMantissa(m) < LN2_62
    ensures m <= ONE62 ==> LnMantissa(m) <= 0
    ensures var t := Ratio(m); -TWO_POW_127 <= t * Floored(AtanhCoeff, t * t / ONE62, 0, 12) < TWO_POW_127
  {
    var t := Ratio(m);
    RatioBound(m);
    SquareBound(t);
    AtanhPass(t * t / ONE62, 0);
    SignedProduct(t, Floored(AtanhCoeff, t * t / ONE62, 0, 12));
    if m == ONE62 {
      assert (m - ONE62) * ONE62 == 0;
      FloorAdjoint(1, 0, m + ONE62);
    }
  }

  /** From two units below 1 on, ln m is negative. */
  lemma LnMantissaNegative(m: int)
    requires SQRT2_HALF_62 <= m <= ONE62 - 2
    ensures LnMantissa(m) < 0
  {
    RatioBound(m);
    SquareBound(Ratio(m));
    AtanhPassAboveOne(Ratio(m) * Ratio(m) / ONE62);
    FloorAdjoint(1, (ONE62 - m) * ONE62, m + ONE62);
    MulMono(Ratio(m), -1, Floored(AtanhCoeff, Ratio(m) * Ratio(m) / ONE62, 0, 12));
  }

  lemma AtanhPassAboveOne(u: int)
    requires 0 <= u <= U_MAX
    ensures Floored(AtanhCoeff, u, 0, 12) >= ONE62
  {
    AtanhPass(u, 1);
    ScaledDown(Floored(AtanhCoeff, u, 1, 12), 2 * ONE62, u);
  }

  lemma SignedProduct(t: int, p: int)
    requires -T_MAX <= t <= T_MAX && 0 <= p <= 2 * ONE62
    ensures -(T_MAX * (2 * ONE62)) <= t * p <= T_MAX * (2 * ONE62)
    ensures t <= 0 ==> t * p <= 0
  {
    MulMono(t, T_MAX, p);
    MulMono(-T_MAX, t, p);
    MulMono(p, 2 * ONE62, T_MAX);
    if t <= 0 {
      MulMono(t, 0, p);
    }
  }

  /** The logarithm of a number in (0, 1] comes out non-negative, and small enough to add to. */
  lemma NegLogBound(x: int)
    requires 0 < x <= ONE62
    ensures var (m, k) := Normalised(x, SQRT2_HALF_62);
            && m == x * Pow2(k)
            && SQRT2_HALF_62 <= m < 2 * SQRT2_HALF_62
            && k <= 62
    ensures 0 <= NegLog62(x) <= 63 * LN2_62
    ensures x <= ONE62 - 2 ==> NegLog62(x) > 0
  {
    var (m, k) := Normalised(x, SQRT2_HALF_62);
    SmallPowers();
    ShiftCount(x, SQRT2_HALF_62, 62);
    LnMantissaBound(m);
    if k == 0 && x <= ONE62 - 2 {
      LnMantissaNegative(m);
    }
  }

  /** The doubling loop; it stays within twice the edge. */
  method DoubleUntil(x: i128, edge: i128) returns (m: i128, k: nat)
    requires 0 < x && 0 < edge <= ONE62
    ensures (m, k) == Normalised(x, edge)
  {
    m, k := x, 0;
    while m < edge
      invariant 0 < m
      invariant Normalised(x, edge) == (Normalised(m, edge).0, Normalised(m, edge).1 + k)
      decreases edge - m
    {
      m := m * 2;
      k := k + 1;
    }
  }

  /** `neg_ln_62`, every intermediate an i128. */
  method NegLn62(x62: i128) returns (r: Result<i128, CurveError>)
    ensures !(0 < x62 <= ONE62) ==> r == Err(ZeroAmount)
    ensures 0 < x62 <= ONE62 ==> r == Ok(NegLog62(x62)) && r.value >= 0
  {
    if x62 <= 0 || x62 > ONE62 {
      return Err(ZeroAmount);
    }
    NegLogBound(x62);
    var m, k := DoubleUntil(x62, SQRT2_HALF_62);
    var lnM := Ln(m);
    return Ok(k * LN2_62 - lnM);
  }

  method Ln(m: i128) returns (lnM: i128)
    requires SQRT2_HALF_62 <= m < 2 * SQRT2_HALF_62
    ensures lnM == LnMantissa(m)
  {
    RatioBound(m);
    SquareBound(Ratio(m));
    LnMantissaBound(m);
    var num: i128, den: i128 := m - ONE62, m + ONE62;
    var shifted: i128 := num * ONE62;
    var t: i128 := TruncDiv(shifted, den);
    var square: i128 := t * t;
    var p := AtanhLoop(square / ONE62);
    var product: i128 := t * p;
    return product / TWO_POW_61;
  }

  method AtanhLoop(u: i128) returns (p: i128)
    requires 0 <= u <= U_MAX
    ensures p == Floored(AtanhCoeff, u, 0, 12)
  {
    p := AtanhCoeff(12);
    for i := 12 downto 0
      invariant p == Floored(AtanhCoeff, u, i, 12)
    {
      AtanhPass(u, i + 1);
      ScaledDown(p, 2 * ONE62, u);
      AtanhPass(u, i);
      var product: i128 := p * u;
      p := product / ONE62 + AtanhCoeff(i);
    }
  }

  /** On every argument the reduction can produce, the 13-term pass is within
      1.55 units of 2^62 times the exact polynomial sum of u^i / (2i + 1). */
  lemma AtanhPassIsClose(u: int)
    requires 0 <= u <= U_MAX
    ensures var x := u as real / ONE62 as real;
            -1.55 <= Floored(AtanhCoeff, u, 0, 12) as real - ONE62 as real * Polynomial(AtanhExact, x, 13) <= 1.55
  {
    AtanhTable();
    FlooredIsClose(AtanhCoeff, AtanhExact, u, 12, 0.03, 1.55);
  }

  // ------------------------------------------------------------ the exponential

  /** exp(-y), with the reduction by ln 2 done by an exact division. */
  function ExpNeg(y: int): int
  {
    if y <= 0 then ONE62
    else if y >= EXP_ZERO_ABOVE then 0
    else
      var k, s := y / LN2_62, y % LN2_62;
      if k >= 63 then 0 else Floored(ExpCoeff, s, 0, 20) / Pow2(k)
  }

  /** The multiply by a rounded 1/ln2 lands on the quotient or one above it. */
  lemma ReciprocalEstimate(y: int)
    requires 0 < y < EXP_ZERO_ABOVE
    ensures y / LN2_62 <= y * INV_LN2_30 / TWO_POW_92 <= y / LN2_62 + 1
  {
    var q, r := y / LN2_62, y % LN2_62;
    assert y == q * LN2_62 + r;
    var n := y * INV_LN2_30;
    FloorAdjoint(q, n, TWO_POW_92);
    FloorAdjoint(q + 2, n, TWO_POW_92);
  }

  lemma ExpCoeffs(i: nat)
    requires i < 20
    ensures if i % 2 == 0 then 0 <= -ExpCoeff(i + 1) <= ExpCoeff(i) <= ONE62 else 0 <= ExpCoeff(i + 1) <= -ExpCoeff(i) <= ONE62
  {
    assert i == 0 || i == 1 || i == 2 || i == 3 || i == 4 || i == 5 || i == 6 || i == 7 || i == 8 || i == 9
        || i == 10 || i == 11 || i == 12 || i == 13 || i == 14 || i == 15 || i == 16 || i == 17 || i == 18 || i == 19;
  }

  /** The accumulators alternate in sign and never exceed their coefficient. */
  lemma {:induction false} ExpPass(s: int, i: nat)
    requires 0 <= s <= ONE62 && i <= 20
    ensures if i % 2 == 0 then 0 <= Floored(ExpCoeff, s, i, 20) <= ExpCoeff(i) <= ONE62
            else -ONE62 <= ExpCoeff(i) <= Floored(ExpCoeff, s, i, 20) <= 0
    decreases 20 - i
  {
    if i < 20 {
      ExpPass(s, i + 1);
      ExpCoeffs(i);
      if i % 2 == 0 {
        StepFromBelow(Floored(ExpCoeff, s, i + 1, 20), ExpCoeff(i + 1), ExpCoeff(i), s);
      } else {
        StepFromAbove(Floored(ExpCoeff, s, i + 1, 20), ExpCoeff(i + 1), ExpCoeff(i), s);
      }
    }
  }

  lemma StepFromBelow(v: int, next: int, c: int, s: int)
    requires next <= v <= 0 && -next <= c && 0 <= s <= ONE62
    ensures 0 <= v * s / ONE62 + c <= c
  {
    assert -(-v * s) == v * s;
    ShrinksTowardZero(-v, -next, s);
  }

  lemma StepFromAbove(v: int, next: int, c: int, s: int)
    requires 0 <= v <= next && next <= -c && 0 <= s <= ONE62
    ensures c <= v * s / ONE62 + c <= 0
  {
    ShrinksTowardZero(v, next, s);
  }

  /** v * s >> 62 stays within v's bound, rounding down on either side of zero. */
  lemma ShrinksTowardZero(v: int, bound: int, s: int)
    requires 0 <= v <= bound && 0 <= s <= ONE62
    ensures 0 <= v * s <= bound * ONE62
    ensures 0 <= v * s / ONE62 <= bound
    ensures -bound <= -(v * s) / ONE62 <= 0
  {
    MulMono(0, v, s);
    MulMono(v, bound, s);
    MulMono(s, ONE62, bound);
    DivMono(0, v * s, ONE62);
    DivMono(v * s, bound * ONE62, ONE62);
    DivMono(-(v * s), 0, ONE62);
    DivMono(-bound * ONE62, -(v * s), ONE62);
    assert bound * ONE62 / ONE62 == bound && -bound * ONE62 / ONE62 == -bound;
  }

  lemma ExpNegBound(y: int)
    ensures 0 <= ExpNeg(y) <= ONE62
  {
    if 0 < y < EXP_ZERO_ABOVE && y / LN2_62 < 63 {
      DivMod(y, LN2_62);
      ExpPass(y % LN2_62, 0);
      var v, p := Floored(ExpCoeff, y % LN2_62, 0, 20), Pow2(y / LN2_62);
      FloorAdjoint(0, v, p);
      FloorAdjoint(v + 1, v, p);
      MulMono(1, p, v + 1);
    }
  }

  /** One step either way. The estimate is never low, so only the first branch is ever taken. */
  function Corrected(k: int, s: int): (int, int) {
    if s < 0 then (k - 1, s + LN2_62)
    else if s >= LN2_62 then (k + 1, s - LN2_62)
    else (k, s)
  }

  /** `exp_neg_62`: a reciprocal estimate and one correction find exactly the
      quotient and remainder by ln 2, and the final clamp never fires. */
  method ExpNeg62(y: i128) returns (r: i128)
    ensures r == ExpNeg(y) && 0 <= r <= ONE62
  {
    ExpNegBound(y);
    if y <= 0 {
      return ONE62;
    }
    if y >= EXP_ZERO_ABOVE {
      return 0;
    }
    ReciprocalEstimate(y);
    DivMod(y, LN2_62);
    var scaled: i128 := y * INV_LN2_30;
    var k: i128 := scaled / TWO_POW_92;
    var s: i128 := y - k * LN2_62;
    k, s := Corrected(k, s).0, Corrected(k, s).1;
    DivUnique(y, LN2_62, k, s);
    if k >= 63 {
      return 0;
    }
    var acc := ExpLoop(s);
    ExpPass(s, 0);
    if acc < 0 {
      acc := 0;
    }
    return acc / Pow2(k);
  }

  method ExpLoop(s: i128) returns (acc: i128)
    requires 0 <= s <= ONE62
    ensures acc == Floored(ExpCoeff, s, 0, 20)
  {
    acc := ExpCoeff(20);
    for i := 20 downto 0
      invariant acc == Floored(ExpCoeff, s, i, 20)
    {
      ExpPass(s, i + 1);
      ExpPass(s, i);
      ProductFits(acc, s);
      var product: i128 := acc * s;
      acc := product / ONE62 + ExpCoeff(i);
    }
  }

  lemma ProductFits(v: int, s: int)
    requires -ONE62 <= v <= ONE62 && 0 <= s <= ONE62
    ensures -TWO_POW_127 <= v * s < TWO_POW_127
  {
    MulMono(-ONE62, v, s);
    MulMono(v, ONE62, s);
  }

  /** On every remainder the reduction can produce, the 21-term pass is within
      4.9 units of 2^62 times the exact Taylor polynomial of exp(-s). */
  lemma ExpPassIsClose(s: int)
    requires 0 <= s < LN2_62
    ensures var x := s as real / ONE62 as real;
            -4.9 <= Floored(ExpCoeff, s, 0, 20) as real - ONE62 as real * Polynomial(ExpExact, x, 21) <= 4.9
  {
    ExpTable();
    FlooredIsClose(ExpCoeff, ExpExact, s, 20, 0.69315, 4.9);
  }
}
