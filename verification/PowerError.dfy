/** The whole power and the whole payout of both kernels against the exact ones: the
    logarithm of the base as shifts of ln 2 and a series, times the exponent, and the
    exponential of that, with sums of any length from the code's own on. */
module PowerError {
  import opened Arithmetic
  import opened BinError
  import opened BinFixed
  import opened ExpHalves
  import opened Horner
  import opened LongSeries
  import opened Words
  import opened Wrappers
  import BinPower
  import DecError
  import Weighted

  const ONE: int := BinFixed.ONE18

  // -------------------------------------------------------------- the logarithm

  function RealTau(m: real): real
    requires m > 0.0
  {
    (m - 1.0) / (m + 1.0)
  }

  /** -ln of a mantissa with s doublings taken off. */
  function LogOf(twice: real -> real, ln2: real, s: nat, m: real): real
    requires m > 0.0
  {
    s as real * ln2 - twice(RealTau(m))
  }

  /** -ln r for a number r, with s doublings taken off: n terms of the mantissa's
      series, l terms of ln 2's. */
  function LogAt(r: real, s: nat, n: nat, l: nat): real
    requires r > 0.0
  {
    LogOf((t: real) => TwiceAtanhSeries(t, n), Ln2Series(l), s, Mantissa(r, s))
  }

  /** A number after s doublings. */
  function Mantissa(r: real, s: nat): (m: real)
    ensures r > 0.0 ==> m > 0.0
    decreases s, r
  {
    if s == 0 then r else 2.0 * Mantissa(r, s - 1)
  }

  lemma {:induction false} MantissaOfDouble(r: real, s: nat)
    ensures Mantissa(2.0 * r, s) == 2.0 * Mantissa(r, s)
  {
    if s > 0 {
      MantissaOfDouble(r, s - 1);
    }
  }

  lemma {:induction false} MantissaAdd(r: real, s: nat, t: nat)
    ensures Mantissa(r, s + t) == Mantissa(Mantissa(r, s), t)
  {
    if t > 0 {
      MantissaAdd(r, s, t - 1);
    }
  }

  /** Normalising an integer over 1e18 doubles the number it stands for. */
  lemma {:induction false} NormalisedIs(x: int, edge: int, r: real)
    requires 0 < x && r * ONE as real == x as real
    ensures Mantissa(r, Normalised(x, edge).1) * ONE as real == Normalised(x, edge).0 as real
    decreases edge - x
  {
    if x < edge {
      NormalisedIs(2 * x, edge, 2.0 * r);
      DoubledOnce(r, Normalised(2 * x, edge).1, Normalised(x, edge).1);
    }
  }

  lemma DoubledOnce(r: real, k: nat, next: nat)
    requires next == k + 1
    ensures Mantissa(r, next) == Mantissa(2.0 * r, k)
  {
    MantissaOfDouble(r, k);
  }

  lemma Positive(a: real, b: real)
    requires a > 0.0 && b > 0.0
    ensures a * b > 0.0
  {
  }

  /** Twice atanh moves at most 4.5 times its argument on [-1/2, 1/2]. */
  lemma TwiceMoves(t: real, t': real, gap: real, n: nat)
    requires n >= 1 && Near(t, 0.5) && Near(t', 0.5) && Near(t - t', gap)
    ensures Near(TwiceAtanhSeries(t, n) - TwiceAtanhSeries(t', n), 4.5 * gap)
  {
    SquareUpTo(t);
    SquareUpTo(t');
    SquaresDiffer(t, t', gap);
    var p, p' := SeriesMoves(t * t, t' * t', gap, n);
    SeriesOfSquare(t, n, p);
    SeriesOfSquare(t', n, p');
    TwiceStep(t, t', gap, p, p', TwiceAtanhSeries(t, n), TwiceAtanhSeries(t', n));
  }

  lemma SeriesMoves(x: real, y: real, gap: real, n: nat) returns (p: real, p': real)
    requires n >= 1 && 0.0 <= x <= 0.25 && 0.0 <= y <= 0.25 && Near(x - y, gap)
    ensures p == Polynomial(AtanhExact, x, n) && p' == Polynomial(AtanhExact, y, n)
    ensures 0.0 <= p <= 1.34 && Near(p - p', 1.8 * gap)
  {
    p, p' := Polynomial(AtanhExact, x, n), Polynomial(AtanhExact, y, n);
    AtanhUnitalTo(n - 1);
    PolynomialMoves(AtanhExact, x, y, n - 1, gap, 0.25, 1.34, 1.8, 1.8 * gap);
    PolynomialMoves(AtanhExact, y, x, n - 1, gap, 0.25, 1.34, 1.8, 1.8 * gap);
  }

  lemma SeriesOfSquare(t: real, n: nat, p: real)
    requires p == Polynomial(AtanhExact, t * t, n)
    ensures TwiceAtanhSeries(t, n) == 2.0 * t * p
  {
  }

  /** What is used of the series of twice atanh. */
  ghost predicate Steady(twice: real -> real) {
    forall t, t', gap :: SteadyAt(twice, t, t', gap)
  }

  predicate SteadyAt(twice: real -> real, t: real, t': real, gap: real) {
    Near(t, 0.5) && Near(t', 0.5) && Near(t - t', gap) ==> Near(twice(t) - twice(t'), 4.5 * gap)
  }

  lemma SeriesIsSteady(twice: real -> real, n: nat)
    requires n >= 1 && forall t {:trigger twice(t)} :: twice(t) == TwiceAtanhSeries(t, n)
    ensures Steady(twice)
  {
    forall t, t', gap
      ensures SteadyAt(twice, t, t', gap)
    {
      if Near(t, 0.5) && Near(t', 0.5) && Near(t - t', gap) {
        TwiceMoves(t, t', gap, n);
      }
    }
  }

  lemma SquareUpTo(t: real)
    requires Near(t, 0.5)
    ensures 0.0 <= t * t <= 0.25
  {
    NearProduct(t, 0.5, t, 0.5);
  }

  lemma SquaresDiffer(t: real, t': real, gap: real)
    requires Near(t, 0.5) && Near(t', 0.5) && Near(t - t', gap)
    ensures Near(t * t - t' * t', gap)
  {
    NearProduct(t - t', gap, t + t', 1.0);
    assert (t - t') * (t + t') == t * t - t' * t';
  }

  lemma TwiceStep(t: real, t': real, gap: real, p: real, p': real, v: real, v': real)
    requires Near(t', 0.5) && Near(t - t', gap) && 0.0 <= p <= 1.34 && Near(p - p', 1.8 * gap)
    requires v == 2.0 * t * p && v' == 2.0 * t' * p'
    ensures Near(v - v', 4.5 * gap)
  {
    NearProduct(t - t', gap, p, 1.34);
    NearProduct(p - p', 1.8 * gap, t', 0.5);
    ProductsDiffer(t, t', p, p');
    Doubled(t, p);
    Doubled(t', p');
    AddTwo(v, v', t * p, t' * p', (t - t') * p, (p - p') * t', gap);
  }

  lemma Doubled(t: real, p: real)
    ensures 2.0 * t * p == 2.0 * (t * p)
  {
  }

  lemma AddTwo(v: real, v': real, a: real, a': real, first: real, second: real, gap: real)
    requires v == 2.0 * a && v' == 2.0 * a' && a - a' == first + second && gap >= 0.0
    requires Near(first, gap * 1.34) && Near(second, 1.8 * gap * 0.5)
    ensures Near(v - v', 4.5 * gap)
  {
  }

  /** Two ratios of numbers a little apart. */
  lemma TauMoves(m: real, m': real, t: real, t': real, d: real, gap: real)
    requires m > 0.0 && m' > 0.0 && t == RealTau(m) && t' == RealTau(m')
    requires Near(m - m', d) && d >= 0.0 && gap * ((m + 1.0) * (m' + 1.0)) >= 2.0 * d
    ensures Near(t - t', gap)
  {
    var q := (m + 1.0) * (m' + 1.0);
    Positive(m + 1.0, m' + 1.0);
    assert t * (m + 1.0) == m - 1.0 && t' * (m' + 1.0) == m' - 1.0;
    TauProduct(m, m', t, t');
    NotAbove(t - t', gap, q);
    Flipped(q, t - t');
    NotAbove(t' - t, gap, q);
  }

  lemma Flipped(q: real, e: real)
    ensures q * -e == -(q * e)
  {
  }

  lemma TauProduct(m: real, m': real, t: real, t': real)
    requires t * (m + 1.0) == m - 1.0 && t' * (m' + 1.0) == m' - 1.0
    ensures (m + 1.0) * (m' + 1.0) * (t - t') == 2.0 * (m - m')
  {
    var a, b := m + 1.0, m' + 1.0;
    assert a * b * (t - t') == t * a * b - t' * b * a;
    assert (m - 1.0) * b - (m' - 1.0) * a == 2.0 * (m - m');
  }

  // ------------------------------------------------------- the binary logarithm

  /** The doublings of the binary logarithm: before the scale changes, and after. */
  function BinShifts(x: int): (s: nat)
    requires 0 < x <= ONE
  {
    BinPower.MantissaBound(x);
    var (xx, j) := Normalised(x, ONE / 2);
    j + Normalised(xx * ONE62 / ONE, SQRT2_HALF_62).1
  }

  /** The mantissa of full precision is the exact one less at most one unit in 2^61. */
  lemma ScaledMantissa(xx: int, m0: int, k: nat, m: int, exact: real)
    requires 0 < xx && m0 == xx * ONE62 / ONE && k <= 1 && m == m0 * Pow2(k)
    requires exact * ONE as real == if k == 0 then xx as real else 2.0 * xx as real
    ensures 0.0 <= UNIT * exact - m as real <= 2.0
  {
    assert Pow2(1) == 2 * Pow2(0) && Pow2(0) == 1;
    var r := xx * ONE62 % ONE;
    assert xx * ONE62 == m0 * ONE + r && 0 <= r < ONE;
    assert (UNIT * exact - m as real) * ONE as real == if k == 0 then r as real else 2.0 * r as real;
  }

  /** So the exact mantissa has nearly the same ratio. */
  lemma MantissaRatios(m: int, exact: real)
    requires SQRT2_HALF_62 <= m < 2 * SQRT2_HALF_62 && 0.0 <= UNIT * exact - m as real <= 2.0
    ensures exact > 0.7 && Near(RealTau(exact), 0.1719) && Near(RealTau(exact) - Tau(m), 1.4 / UNIT)
  {
    var near := m as real / UNIT;
    assert near * UNIT == m as real;
    assert near >= 0.707 && near <= 1.4143;
    assert 0.0 <= exact - near <= 2.0 / UNIT;
    SameTau(m, near);
    var q := (exact + 1.0) * (near + 1.0);
    ProductAtLeast(exact + 1.0, near + 1.0);
    assert 1.4 / UNIT * q >= 2.0 * (2.0 / UNIT);
    TauMoves(exact, near, RealTau(exact), Tau(m), 2.0 / UNIT, 1.4 / UNIT);
    TauBound(m);
  }

  lemma ProductAtLeast(a: real, b: real)
    requires a >= 1.7 && b >= 1.7
    ensures a * b >= 2.89
  {
    MulLe(1.7, a, b);
  }

  lemma SameTau(m: int, near: real)
    requires m > 0 && near * UNIT == m as real && near > 0.0
    ensures Tau(m) == RealTau(near)
  {
    var n, d := (m - ONE62) as real, (m + ONE62) as real;
    assert n == (near - 1.0) * UNIT && d == (near + 1.0) * UNIT;
    CommonFactor(near - 1.0, near + 1.0, UNIT, n, d);
  }

  lemma CommonFactor(a: real, b: real, c: real, n: real, d: real)
    requires b > 0.0 && c > 0.0 && n == a * c && d == b * c
    ensures d != 0.0 && n / d == a / b
  {
    Positive(b, c);
    var q := a / b;
    assert q * b == a;
    assert q * d == n;
  }

  /** At most one doubling is left for the second normalisation. */
  lemma OneDoubling(m0: int)
    requires ONE62 / 2 <= m0 <= ONE62
    ensures var (m, k) := Normalised(m0, SQRT2_HALF_62);
            SQRT2_HALF_62 <= m < 2 * SQRT2_HALF_62 && k <= 1
  {
    NegLogBound(m0);
    var (m, k) := Normalised(m0, SQRT2_HALF_62);
    assert Pow2(1) == 2 * Pow2(0) && Pow2(2) == 2 * Pow2(1) && Pow2(0) == 1;
    if k >= 2 {
      Pow2Mono(2, k);
      MulMono(4, Pow2(k), m0);
    }
  }

  /** The exact mantissa of the base, in two steps. */
  lemma ExactMantissa(r: real, j: nat, k: nat, xx: int)
    requires Mantissa(r, j) * ONE as real == xx as real && k <= 1
    ensures Mantissa(r, j + k) * ONE as real == if k == 0 then xx as real else 2.0 * xx as real
  {
    MantissaAdd(r, j, k);
    var half := Mantissa(r, j);
    assert Mantissa(half, 0) == half;
    if k == 1 {
      assert Mantissa(half, 1) == 2.0 * Mantissa(half, 0);
    }
  }

  /** The integers of the binary logarithm: base, doublings, mantissas. */
  lemma BinPieces(x: int, r: real) returns (xx: int, j: nat, m0: int, m: int, k: nat)
    requires 0 < x <= ONE && r * ONE as real == x as real
    ensures Mantissa(r, j) * ONE as real == xx as real && xx > 0 && m0 == xx * ONE62 / ONE && 0 < m0 <= ONE62
    ensures (m, k) == Normalised(m0, SQRT2_HALF_62) && m == m0 * Pow2(k) && k <= 1
    ensures SQRT2_HALF_62 <= m < 2 * SQRT2_HALF_62
    ensures BinShifts(x) == j + k && BinPower.NegLog18(x) == j * LN2_62 + NegLog62(m0)
  {
    BinPower.MantissaBound(x);
    NormalisedIs(x, ONE / 2, r);
    var (xx', j') := Normalised(x, ONE / 2);
    xx, j, m0 := xx', j', xx' * ONE62 / ONE;
    OneDoubling(m0);
    var (m', k') := Normalised(m0, SQRT2_HALF_62);
    m, k := m', k';
  }

  /** What is used of the logarithm after the change of scale. */
  ghost predicate Reads(twice: real -> real, ln2: real) {
    forall m0: int :: 0 < m0 <= ONE62 ==> ReadsAt(twice, ln2, m0)
  }

  predicate ReadsAt(twice: real -> real, ln2: real, m0: int)
    requires 0 < m0 <= ONE62
  {
    var (m, k) := Normalised(m0, SQRT2_HALF_62);
    m > 0 && Near(NegLog62(m0) as real - UNIT * (k as real * ln2 - twice(Tau(m))), 4.3 + 0.5 * k as real)
  }

  lemma LowValue(m0: int, m: int, k: nat, more: nat, series: real)
    requires 0 < m0 <= ONE62 && (m, k) == Normalised(m0, SQRT2_HALF_62) && m > 0
    requires series == TwiceAtanhSeries(Tau(m), 13 + more)
    ensures -3.3 <= NegLog62(m0) as real - ((k * LN2_62) as real - UNIT * series) <= 4.3
  {
    NegLogIsCloseToAll(m0, more);
  }

  lemma LowFrom(v: int, k: nat, ln2: real, series: real)
    requires -3.3 <= v as real - ((k * LN2_62) as real - UNIT * series) <= 4.3 && Near(LN2_62 as real - UNIT * ln2, 0.5)
    ensures Near(v as real - UNIT * (k as real * ln2 - series), 4.3 + 0.5 * k as real)
  {
    Shifts(k, LN2_62, UNIT, ln2);
    AddShifts(v as real, (k * LN2_62) as real, k as real * ln2, series, 0.5 * k as real);
  }

  lemma LowPart(m0: int, m: int, k: nat, v: int, more: nat, ln2: real, series: real)
    requires 0 < m0 <= ONE62 && (m, k) == Normalised(m0, SQRT2_HALF_62) && m > 0 && v == NegLog62(m0)
    requires series == TwiceAtanhSeries(Tau(m), 13 + more) && Near(LN2_62 as real - UNIT * ln2, 0.5)
    ensures Near(v as real - UNIT * (k as real * ln2 - series), 4.3 + 0.5 * k as real)
  {
    LowValue(m0, m, k, more, series);
    LowFrom(v, k, ln2, series);
  }

  lemma ReadsOne(twice: real -> real, ln2: real, m0: int, m: int, k: nat, v: int, series: real)
    requires 0 < m0 <= ONE62 && (m, k) == Normalised(m0, SQRT2_HALF_62) && m > 0 && v == NegLog62(m0) && series == twice(Tau(m))
    requires Near(v as real - UNIT * (k as real * ln2 - series), 4.3 + 0.5 * k as real)
    ensures ReadsAt(twice, ln2, m0)
  {
  }

  lemma SeriesReads(twice: real -> real, ln2: real, more: nat)
    requires Near(LN2_62 as real - UNIT * ln2, 0.5)
    requires forall t {:trigger twice(t)} :: twice(t) == TwiceAtanhSeries(t, 13 + more)
    ensures Reads(twice, ln2)
  {
    forall m0: int | 0 < m0 <= ONE62
      ensures ReadsAt(twice, ln2, m0)
    {
      NegLogBound(m0);
      var (m, k) := Normalised(m0, SQRT2_HALF_62);
      LowPart(m0, m, k, NegLog62(m0), more, ln2, twice(Tau(m)));
      ReadsOne(twice, ln2, m0, m, k, NegLog62(m0), twice(Tau(m)));
    }
  }

  /** The two parts of the binary logarithm together, and the floor between them. */
  lemma LogFromPieces(twice: real -> real, ln2: real, xx: int, j: nat, m0: int, m: int, k: nat, low: int, nl: int, exact: real)
    requires Steady(twice) && Near(LN2_62 as real - UNIT * ln2, 0.5)
    requires 0 < xx && m0 == xx * ONE62 / ONE && k <= 1 && m == m0 * Pow2(k)
    requires SQRT2_HALF_62 <= m < 2 * SQRT2_HALF_62 && nl == j * LN2_62 + low
    requires Near(low as real - UNIT * (k as real * ln2 - twice(Tau(m))), 4.3 + 0.5 * k as real)
    requires exact * ONE as real == (if k == 0 then xx as real else 2.0 * xx as real) && exact > 0.0
    ensures Near(nl as real - UNIT * LogOf(twice, ln2, j + k, exact), 10.6 + 0.5 * (j + k) as real)
  {
    SeriesPart(twice, xx, m0, m, k, exact);
    Shifts(j, LN2_62, UNIT, ln2);
    BinLogSum(nl, low, j, k, j as real * ln2, k as real * ln2, (j + k) as real * ln2, ln2, twice(Tau(m)), twice(RealTau(exact)));
    LogOfIs(twice, ln2, j + k, exact, twice(RealTau(exact)));
  }

  lemma SeriesPart(twice: real -> real, xx: int, m0: int, m: int, k: nat, exact: real)
    requires Steady(twice) && 0 < xx && m0 == xx * ONE62 / ONE && k <= 1 && m == m0 * Pow2(k)
    requires SQRT2_HALF_62 <= m < 2 * SQRT2_HALF_62
    requires exact * ONE as real == (if k == 0 then xx as real else 2.0 * xx as real) && exact > 0.0
    ensures Near(twice(RealTau(exact)) - twice(Tau(m)), 6.3 / UNIT)
  {
    ScaledMantissa(xx, m0, k, m, exact);
    MantissaRatios(m, exact);
    TauBound(m);
    assert SteadyAt(twice, RealTau(exact), Tau(m), 1.4 / UNIT);
  }

  lemma LogOfIs(twice: real -> real, ln2: real, s: nat, m: real, v: real)
    requires m > 0.0 && v == twice(RealTau(m))
    ensures LogOf(twice, ln2, s, m) == s as real * ln2 - v
  {
  }

  lemma BinLogSum(nl: int, low: int, j: nat, k: nat, first: real, second: real, both: real, ln2: real, series: real, exact: real)
    requires nl == j * LN2_62 + low && Near((j * LN2_62) as real - UNIT * first, 0.5 * j as real)
    requires first == j as real * ln2 && second == k as real * ln2 && both == (j + k) as real * ln2
    requires Near(low as real - UNIT * (second - series), 4.3 + 0.5 * k as real)
    requires Near(exact - series, 6.3 / UNIT)
    ensures Near(nl as real - UNIT * (both - exact), 10.6 + 0.5 * (j + k) as real)
  {
    assert both == first + second;
    AddLow(nl as real, (j * LN2_62) as real, low as real, first, second, both, series, exact, 0.5 * j as real, 0.5 * k as real);
  }

  lemma AddLow(nl: real, high: real, low: real, first: real, second: real, both: real, series: real, exact: real, a: real, b: real)
    requires nl == high + low && both == first + second && Near(high - UNIT * first, a)
    requires Near(low - UNIT * (second - series), 4.3 + b) && Near(exact - series, 6.3 / UNIT)
    ensures Near(nl - UNIT * (both - exact), 10.6 + a + b)
  {
    assert Near(UNIT * (exact - series), 6.3);
  }

  /** The binary logarithm of every base, within 10.6 units and half a unit a doubling of
      the exact one: the floor between the two scales included. */
  lemma BinLogOfBase(x: int, r: real, n: nat, l: nat)
    requires 0 < x <= ONE && r * ONE as real == x as real && r > 0.0 && n >= 13 && l >= 21
    ensures Near(BinPower.NegLog18(x) as real - UNIT * LogAt(r, BinShifts(x), n, l), 10.6 + 0.5 * BinShifts(x) as real)
  {
    var twice := (t: real) => TwiceAtanhSeries(t, n);
    SeriesIsSteady(twice, n);
    StoredLn2(l - 21);
    SeriesReads(twice, Ln2Series(l), n - 13);
    BinLogWith(x, r, BinShifts(x), BinPower.NegLog18(x), twice, Ln2Series(l));
  }

  lemma BinLogWith(x: int, r: real, s: nat, nl: int, twice: real -> real, ln2: real)
    requires 0 < x <= ONE && Steady(twice) && Reads(twice, ln2) && Near(LN2_62 as real - UNIT * ln2, 0.5)
    requires r * ONE as real == x as real && r > 0.0 && s == BinShifts(x) && nl == BinPower.NegLog18(x)
    ensures Near(nl as real - UNIT * LogOf(twice, ln2, s, Mantissa(r, s)), 10.6 + 0.5 * s as real)
  {
    var xx, j, m0, m, k := BinPieces(x, r);
    ExactMantissa(r, j, k, xx);
    ReadsPart(twice, ln2, m0, m, k);
    LogFromPieces(twice, ln2, xx, j, m0, m, k, NegLog62(m0), nl, Mantissa(r, s));
  }

  lemma ReadsPart(twice: real -> real, ln2: real, m0: int, m: int, k: nat)
    requires Reads(twice, ln2) && 0 < m0 <= ONE62 && (m, k) == Normalised(m0, SQRT2_HALF_62)
    ensures m > 0 && Near(NegLog62(m0) as real - UNIT * (k as real * ln2 - twice(Tau(m))), 4.3 + 0.5 * k as real)
  {
    assert ReadsAt(twice, ln2, m0);
  }

  // ------------------------------------------------------ the decimal logarithm

  /** The doublings of the decimal logarithm. */
  function DecShifts(x: int): nat
    requires 0 < x < ONE
  {
    Normalised(x, ONE / 2).1
  }

  lemma OppositeRatios(m: int, exact: real)
    requires 0 < m && exact * ONE as real == m as real && exact > 0.0
    ensures RealTau(exact) == -DecError.MantissaRatio(m)
  {
    var a, d := (Weighted.ONE - m) as real, (Weighted.ONE + m) as real;
    assert -a == (exact - 1.0) * ONE as real && d == (exact + 1.0) * ONE as real;
    CommonFactor(exact - 1.0, exact + 1.0, ONE as real, -a, d);
    var t := a / d;
    assert t * d == a;
    assert -t * d == -a by {
      Negative(t, d);
    }
    assert -t == -a / d;
  }

  lemma Negative(t: real, d: real)
    ensures -t * d == -(t * d)
  {
  }

  /** Twice atanh is odd. */
  lemma TwiceOdd(t: real, n: nat)
    ensures TwiceAtanhSeries(-t, n) == -TwiceAtanhSeries(t, n)
  {
    Negative(t, -t);
    SquareOfOpposite(t);
    OddProduct(t, Polynomial(AtanhExact, t * t, n), TwiceAtanhSeries(t, n), TwiceAtanhSeries(-t, n));
  }

  lemma SquareOfOpposite(t: real)
    ensures -t * -t == t * t
  {
  }

  lemma OddProduct(t: real, p: real, v: real, v': real)
    requires v == 2.0 * t * p && v' == 2.0 * -t * p
    ensures v' == -v
  {
    Doubled(t, p);
    Doubled(-t, p);
    Negative(t, p);
  }

  /** The decimal logarithm of every fraction, within 77 units and half a unit a doubling. */
  lemma DecLogOfBase(x: int, r: real, n: nat, l: nat)
    requires 0 < x < ONE && r * ONE as real == x as real && r > 0.0 && n >= 24 && l >= 21
    ensures Near(Weighted.NegLog(x) as real - SCALE * LogAt(r, DecShifts(x), n, l), 77.0 + 0.5 * DecShifts(x) as real)
  {
    var twice := (t: real) => TwiceAtanhSeries(t, n);
    NormalisedIs(x, ONE / 2, r);
    StoredLn2(l - 21);
    DecReads(x, Normalised(x, ONE / 2).0, DecShifts(x), n - 24, Weighted.NegLog(x), Mantissa(r, DecShifts(x)), Ln2Series(l), twice);
  }

  lemma DecReads(x: int, m: int, k: nat, more: nat, nl: int, exact: real, ln2: real, twice: real -> real)
    requires 0 < x < ONE && (m, k) == Normalised(x, ONE / 2) && nl == Weighted.NegLog(x)
    requires exact * ONE as real == m as real && exact > 0.0 && Near(Weighted.LN2 as real - SCALE * ln2, 0.5)
    requires forall t {:trigger twice(t)} :: twice(t) == TwiceAtanhSeries(t, 24 + more)
    ensures Near(nl as real - SCALE * LogOf(twice, ln2, k, exact), 77.0 + 0.5 * k as real)
  {
    var series := DecSeries(x, m, k, more, nl, exact, ln2, twice(RealTau(exact)));
    DecJoin(twice, ln2, k, exact, nl, series);
  }

  lemma DecSeries(x: int, m: int, k: nat, more: nat, nl: int, exact: real, ln2: real, v: real) returns (series: real)
    requires 0 < x < ONE && (m, k) == Normalised(x, ONE / 2) && nl == Weighted.NegLog(x)
    requires exact * ONE as real == m as real && exact > 0.0 && Near(Weighted.LN2 as real - SCALE * ln2, 0.5)
    requires v == TwiceAtanhSeries(RealTau(exact), 24 + more)
    ensures v == -series && Near(nl as real - SCALE * (k as real * ln2 + series), 77.0 + 0.5 * k as real)
  {
    Weighted.NegLogBound(x);
    series := OppositeSeries(m, exact, 24 + more, v);
    var half := DecHalf(x, m, k, more, nl, series);
    DecValue(nl, k, half, series, ln2);
  }

  lemma OppositeSeries(m: int, exact: real, n: nat, v: real) returns (series: real)
    requires 0 < m && exact * ONE as real == m as real && exact > 0.0 && v == TwiceAtanhSeries(RealTau(exact), n)
    ensures series == TwiceAtanhSeries(DecError.MantissaRatio(m), n) && v == -series
  {
    OppositeRatios(m, exact);
    TwiceOdd(DecError.MantissaRatio(m), n);
    series := TwiceAtanhSeries(DecError.MantissaRatio(m), n);
  }

  lemma DecJoin(twice: real -> real, ln2: real, k: nat, exact: real, nl: int, series: real)
    requires exact > 0.0 && twice(RealTau(exact)) == -series
    requires Near(nl as real - SCALE * (k as real * ln2 + series), 77.0 + 0.5 * k as real)
    ensures Near(nl as real - SCALE * LogOf(twice, ln2, k, exact), 77.0 + 0.5 * k as real)
  {
  }

  lemma DecValue(nl: int, k: nat, half: real, series: real, ln2: real)
    requires Near(Weighted.LN2 as real - SCALE * ln2, 0.5)
    requires 0.0 <= (Weighted.LN2 * k) as real + SCALE * (2.0 * half) - nl as real <= 76.8
    requires -0.02 <= SCALE * series - SCALE * (2.0 * half) <= 0.02
    ensures Near(nl as real - SCALE * (k as real * ln2 + series), 77.0 + 0.5 * k as real)
  {
    Shifts(k, Weighted.LN2, SCALE, ln2);
    DecSum(nl as real, k, ln2, half, series);
  }

  lemma DecHalf(x: int, m: int, k: nat, more: nat, nl: int, series: real) returns (half: real)
    requires 0 < x < ONE && (m, k) == Normalised(x, ONE / 2) && nl == Weighted.NegLog(x)
    requires Weighted.ONE / 2 <= m < Weighted.ONE && series == TwiceAtanhSeries(DecError.MantissaRatio(m), 24 + more)
    ensures 0.0 <= (Weighted.LN2 * k) as real + SCALE * (2.0 * half) - nl as real <= 76.8
    ensures -0.02 <= SCALE * series - SCALE * (2.0 * half) <= 0.02
  {
    DecError.LogIsClose(x);
    TwiceAtanhTail(m, more);
    half := DecError.ExactAtanh(DecError.MantissaRatio(m));
  }
}
