/** The logarithms of the two kernels against each other: at every fraction but the
    largest both are positive, and neither is more than a small factor of the other. */
module LogScales {
  import opened Arithmetic
  import opened BinFixed
  import opened Horner
  import Bin = BinPower
  import Dec = Weighted

  const ONE := Dec.ONE

  /** The binary logarithm `nl` and the decimal one `dl` of one base; their scales are
      2^62 and 1e18, so about 4.61 to 1. */
  predicate Comparable(nl: int, dl: int) {
    0 < dl && 10 * dl <= 9 * nl && nl <= 600 * dl
  }

  // ----------------------------------------------------- one unit and its ratio

  /** A ratio a s / (2 s - a) floored, between a / 2 and, up to a bound on a, a bit more. */
  lemma HalfRatio(a: int, s: int, q: int)
    requires 0 <= a <= s && s > 0 && q == a * s / (2 * s - a)
    ensures a - 1 <= 2 * q && q <= a
    ensures 10 * a <= 3 * s ==> 17 * q <= 10 * a
  {
    var d := 2 * s - a;
    MulMono(0, a, s);
    FloorAdjoint(0, a * s, d);
    FloorAdjoint(q, a * s, d);
    FloorAdjoint(q + 1, a * s, d);
    FloorAdjoint(a + 1, a * s, d);
    MulMono(s, d, a + 1);
    assert (a + 1) * s == a * s + s;
    AtLeastHalf(a, s, q);
    if 10 * a <= 3 * s {
      AtMostTenSeventeenths(a, s, q);
    }
  }

  lemma AtLeastHalf(a: int, s: int, q: int)
    requires 0 <= a <= s && s > 0 && q >= 0 && a * s < (q + 1) * (2 * s - a)
    ensures a - 1 <= 2 * q
  {
    MulMono(0, a, q + 1);
    assert (q + 1) * (2 * s - a) == 2 * (q + 1) * s - (q + 1) * a;
    MulCancelStrict(a, 2 * (q + 1), s);
  }

  lemma MulCancelStrict(a: int, b: int, c: int)
    requires c > 0 && a * c < b * c
    ensures a < b
  {
    if b <= a {
      MulMono(b, a, c);
    }
  }

  lemma AtMostTenSeventeenths(a: int, s: int, q: int)
    requires 0 <= a && 10 * a <= 3 * s && s > 0 && q >= 0 && q * (2 * s - a) <= a * s
    ensures 17 * q <= 10 * a
  {
    MulMono(17 * s, 10 * (2 * s - a), q);
    assert q * (17 * s) == 17 * q * s;
    assert q * (10 * (2 * s - a)) == 10 * (q * (2 * s - a));
    assert 10 * (a * s) == 10 * a * s;
    MulCancel(17 * q, 10 * a, s);
  }

  // ---------------------------------------------------------- above one half

  /** What is missing from one, at scale 1e18 and, for the mantissa, at scale 2^62. */
  lemma Missing(x: int, d: int, m: int)
    requires 0 <= x <= ONE && d == ONE - x && m == x * ONE62 / ONE
    ensures d * ONE62 <= (ONE62 - m) * ONE < d * ONE62 + ONE
  {
    var r := x * ONE62 % ONE;
    assert x * ONE62 == m * ONE + r;
  }

  /** The decimal logarithm by what is missing. */
  lemma DecimalAboveHalf(x: int, d: int)
    requires ONE / 2 <= x <= ONE - 2 && d == ONE - x
    ensures d <= 2 * Dec.NegLog(x)
    ensures 10 * d <= 3 * ONE ==> 17 * Dec.NegLog(x) <= 40 * d
    ensures 3 * Dec.NegLog(x) <= 4 * ONE && d - 1 <= Dec.NegLog(x)
  {
    Dec.NegLogNearShifts(x);
    HalfRatio(d, ONE, d * ONE / (2 * ONE - d));
    assert BinFixed.Normalised(x, ONE / 2) == (x, 0);
  }

  /** 2 atanh of a ratio that is not positive. */
  lemma TwiceAtanhBelow(t: int)
    requires -T_MAX <= t <= 0
    ensures 4 * t <= TwiceAtanh(t) <= 2 * t
  {
    var u := t * t / ONE62;
    SquareBound(t);
    AtanhPass(u, 0);
    AtanhPassAboveOne(u);
    ProductBelow(t, Floored(AtanhCoeff, u, 0, 12));
  }

  lemma ProductBelow(t: int, p: int)
    requires t <= 0 && ONE62 <= p <= 2 * ONE62
    ensures 4 * t <= t * p / TWO_POW_61 <= 2 * t
  {
    MulMono(ONE62, p, -t);
    MulMono(p, 2 * ONE62, -t);
    assert -t * p == -(t * p);
    FloorAdjoint(4 * t, t * p, TWO_POW_61);
    FloorAdjoint(2 * t + 1, t * p, TWO_POW_61);
  }

  /** 2 atanh of a ratio that is not negative. */
  lemma TwiceAtanhAbove(t: int)
    requires 0 <= t <= T_MAX
    ensures TwiceAtanh(t) <= 1_700_000_000_000_000_000
  {
    var u := t * t / ONE62;
    SquareBound(t);
    AtanhPassClose(u);
    var p := Floored(AtanhCoeff, u, 0, 12);
    MulMono(t, T_MAX, p);
    DivMono(t * p, T_MAX * p, TWO_POW_61);
    DivMono(T_MAX * p, T_MAX * 4_900_000_000_000_000_000, TWO_POW_61);
  }

  lemma AtanhPassClose(u: int)
    requires 0 <= u <= U_MAX
    ensures 0 <= Floored(AtanhCoeff, u, 0, 12) <= 4_900_000_000_000_000_000
  {
    AtanhPass(u, 0);
    AtanhPass(u, 1);
    var next := Floored(AtanhCoeff, u, 1, 12);
    ScaledDown(next, 2 * ONE62, u);
    DivMono(2 * ONE62 * u, 2 * ONE62 * U_MAX, ONE62);
  }

  /** The mantissa is still in the window: the logarithm by what is missing from it. */
  lemma BinaryNearOne(m: int, d: int)
    requires SQRT2_HALF_62 <= m <= ONE62 && d == ONE62 - m
    ensures d - 1 <= NegLog62(m) && 17 * NegLog62(m) <= 40 * d
  {
    assert Normalised(m, SQRT2_HALF_62) == (m, 0);
    RatioBound(m);
    assert Ratio(m) == -(d * ONE62 / (2 * ONE62 - d)) by {
      if m == ONE62 {
        assert (m - ONE62) * ONE62 == 0;
        DivUnique(0, 2 * ONE62, 0, 0);
      } else {
        assert (m - ONE62) * ONE62 == -(d * ONE62);
      }
    }
    HalfRatio(d, ONE62, d * ONE62 / (2 * ONE62 - d));
    TwiceAtanhBelow(Ratio(m));
  }

  /** The mantissa is doubled once: the logarithm is far from zero. */
  lemma BinaryFarFromOne(m: int)
    requires ONE62 / 2 <= m < SQRT2_HALF_62
    ensures 1_490_000_000_000_000_000 <= NegLog62(m) <= 2 * LN2_62
  {
    assert Normalised(2 * m, SQRT2_HALF_62) == (2 * m, 0);
    assert Normalised(m, SQRT2_HALF_62) == (2 * m, 1);
    RatioBound(2 * m);
    TwiceAtanhAbove(Ratio(2 * m));
    LnMantissaBound(2 * m);
  }

  lemma CompareAboveHalf(x: int)
    requires ONE / 2 <= x <= ONE - 2
    ensures Comparable(Bin.NegLog18(x), Dec.NegLog(x))
  {
    var d, m := ONE - x, x * ONE62 / ONE;
    Bin.MantissaBound(x);
    assert Normalised(x, ONE / 2) == (x, 0);
    assert Bin.NegLog18(x) == NegLog62(m);
    Missing(x, d, m);
    DecimalAboveHalf(x, d);
    if m >= SQRT2_HALF_62 {
      BinaryNearOne(m, ONE62 - m);
    } else {
      BinaryFarFromOne(m);
    }
  }

  // ---------------------------------------------------------- below one half

  lemma CompareBelowHalf(x: int)
    requires 0 < x < ONE / 2
    ensures Comparable(Bin.NegLog18(x), Dec.NegLog(x))
  {
    var k := Normalised(x, ONE / 2).1;
    Bin.MantissaBound(x);
    Bin.NegLog18Bound(x);
    Dec.NegLogNearShifts(x);
    assert k >= 1;
  }

  /** At every fraction but the largest the two logarithms are positive and comparable. */
  lemma Compare(x: int)
    requires 0 < x < ONE - 1
    ensures Comparable(Bin.NegLog18(x), Dec.NegLog(x))
  {
    if x < ONE / 2 {
      CompareBelowHalf(x);
    } else {
      CompareAboveHalf(x);
    }
  }

  /** The decimal kernel loses the largest fraction: its logarithm is zero there, and
      at one, and nowhere else. */
  lemma DecimalPositiveIff(x: int)
    requires 0 < x <= ONE
    ensures Dec.NegLog(x) > 0 <==> x < ONE - 1
  {
    if x < ONE - 1 {
      Compare(x);
    } else if x == ONE - 1 {
      DivUnique(ONE, 2 * ONE - 1, 0, ONE);
      Dec.NegLogNearShifts(x);
    }
  }
}
