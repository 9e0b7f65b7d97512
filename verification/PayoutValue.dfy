/** What the weighted swap pays: within a stated distance of the exact payout at the
    exact price ratio, the floor of the ratio included, on both kernels. */
module PayoutValue {
  import opened Arithmetic
  import opened BinError
  import opened BinFixed
  import opened ExpHalves
  import opened Horner
  import opened LongSeries
  import opened PowerError
  import opened PowerValue
  import opened Words
  import opened Wrappers
  import BinPower
  import Kernels
  import Weighted

  // ------------------------------------------------------- a ratio and its floor

  /** A ratio next to its floor over 1e18, which is `base` units. */
  predicate Floors(r: real, q: real, base: int) {
    base >= 1 && r > 0.0 && r <= q <= 2.0 * r && base as real * (q - r) <= r
  }

  lemma FlooredRatio(rc: int, d: int, base: int, r: real, q: real)
    requires rc > 0 && d > 0 && base == PowerError.ONE * rc / d && base >= 1
    requires r * PowerError.ONE as real == base as real && q * d as real == rc as real
    ensures Floors(r, q, base)
  {
    var one := PowerError.ONE;
    var rem := one * rc % d;
    assert one * rc == base * d + rem && 0 <= rem < d;
    CastSum(base, d, rem, one * rc);
    CastSum(one, rc, 0, one * rc);
    var scaled := q * one as real;
    ScaledGap(one as real, rc as real, d as real, base as real, rem as real, q, scaled);
    UnitShare(scaled - base as real, d as real, rem as real);
    RatioGap(one as real, base as real, r, q, scaled);
  }

  lemma CastSum(a: int, b: int, c: int, total: int)
    requires total == a * b + c
    ensures total as real == a as real * b as real + c as real
  {
    assert (a * b) as real == a as real * b as real;
  }

  lemma ScaledGap(one: real, rc: real, d: real, base: real, rem: real, q: real, scaled: real)
    requires one * rc == base * d + rem && q * d == rc && scaled == q * one
    ensures (scaled - base) * d == rem
  {
    assert scaled * d == one * (q * d);
  }

  lemma RatioGap(one: real, base: real, r: real, q: real, scaled: real)
    requires one > 0.0 && base >= 1.0 && r * one == base && q * one == scaled && base <= scaled <= base + 1.0
    ensures r > 0.0 && r <= q <= 2.0 * r && base * (q - r) <= r
  {
    InOrder(0.0, r, one, 0.0, base);
    InOrder(r, q, one, base, scaled);
    InOrder(q, 2.0 * r, one, scaled, 2.0 * base);
    var gap := (q - r) * one;
    assert gap == scaled - base;
    MulLe(gap, 1.0, r);
    Reordered(one, base, r, q, gap);
    assert r == 0.0 ==> r * one == 0.0;
  }

  lemma InOrder(a: real, b: real, c: real, ac: real, bc: real)
    requires c > 0.0 && ac == a * c && bc == b * c && ac <= bc
    ensures a <= b
  {
    if a > b {
      Cancel(a, b, c);
    }
  }

  lemma Reordered(one: real, base: real, r: real, q: real, gap: real)
    requires base == r * one && gap == (q - r) * one
    ensures base * (q - r) == gap * r
  {
  }

  // -------------------------------------------------------------- the logarithm

  lemma {:induction false} MantissasOrdered(r: real, q: real, s: nat)
    requires r <= q <= 2.0 * r
    ensures Mantissa(r, s) <= Mantissa(q, s) <= 2.0 * Mantissa(r, s)
  {
    if s > 0 {
      MantissasOrdered(r, q, s - 1);
    }
  }

  lemma {:induction false} MantissaGap(b: real, r: real, q: real, s: nat)
    requires b * (q - r) <= r
    ensures b * (Mantissa(q, s) - Mantissa(r, s)) <= Mantissa(r, s)
  {
    if s > 0 {
      MantissaGap(b, r, q, s - 1);
      DoubledGap(b, Mantissa(q, s - 1), Mantissa(r, s - 1));
    }
  }

  lemma DoubledGap(b: real, q: real, r: real)
    ensures b * (2.0 * q - 2.0 * r) == 2.0 * (b * (q - r))
  {
  }

  lemma RatiosInside(m: real, m': real)
    requires 0.5 <= m <= 1.4143 && m <= m' <= 2.0 * m
    ensures Near(RealTau(m), 0.5) && Near(RealTau(m'), 0.5)
  {
    QuotientBetween(m - 1.0, m + 1.0, 0.5);
    QuotientBetween(m' - 1.0, m' + 1.0, 0.5);
  }

  lemma RatiosClose(m: real, m': real, b: real, gap: real)
    requires 0.5 <= m <= 1.4143 && m <= m' && b >= 1.0 && b * (m' - m) <= m && gap * b == 0.8
    ensures Near(RealTau(m') - RealTau(m), gap)
  {
    var d, q := m' - m, (m' + 1.0) * (m + 1.0);
    Positive(b, 1.0);
    ProductAbove(m, m');
    GapLarge(gap, b, q, d, m);
    TauMoves(m', m, RealTau(m'), RealTau(m), d, gap);
  }

  lemma ProductAbove(m: real, m': real)
    requires 0.5 <= m <= 1.4143 && m <= m'
    ensures (m' + 1.0) * (m + 1.0) >= 2.5 * m
  {
    var a, b := m' + 1.0, m + 1.0;
    MulLe(1.5, a, b);
    assert a * b >= 1.5 * b;
  }

  lemma GapLarge(gap: real, b: real, q: real, d: real, m: real)
    requires b >= 1.0 && gap * b == 0.8 && q >= 2.5 * m && b * d <= m
    ensures gap * q >= 2.0 * d
  {
    assert b * (gap * q) == 0.8 * q by {
      assert b * (gap * q) == gap * b * q;
    }
    assert b * (2.0 * d) == 2.0 * (b * d);
    NotAbove(2.0 * d, gap * q, b);
  }

  /** The logarithms of a ratio and of its floor, at the same number of doublings. */
  lemma LogsClose(twice: real -> real, ln2: real, s: nat, m: real, m': real, b: real, gap: real)
    requires Steady(twice) && 0.5 <= m <= 1.4143 && m <= m' <= 2.0 * m && b >= 1.0 && b * (m' - m) <= m && gap * b == 0.8
    ensures Near(LogOf(twice, ln2, s, m) - LogOf(twice, ln2, s, m'), 4.5 * gap)
  {
    RatiosInside(m, m');
    RatiosClose(m, m', b, gap);
    assert SteadyAt(twice, RealTau(m'), RealTau(m), gap);
  }

  lemma LogAtFloor(r: real, q: real, base: int, s: nat, n: nat, l: nat, gap: real)
    requires Floors(r, q, base) && 0.5 <= Mantissa(r, s) <= 1.4143 && n >= 1 && gap * base as real == 0.8
    ensures Near(LogAt(r, s, n, l) - LogAt(q, s, n, l), 4.5 * gap)
  {
    var twice := (t: real) => TwiceAtanhSeries(t, n);
    SeriesIsSteady(twice, n);
    MantissasOrdered(r, q, s);
    MantissaGap(base as real, r, q, s);
    LogsClose(twice, Ln2Series(l), s, Mantissa(r, s), Mantissa(q, s), base as real, gap);
  }

  // ------------------------------------------------------------------ the power

  /** The exact powers of a ratio and of its floor. */
  lemma PowersClose(exp: real -> real, e: real, log: real, log': real, gap: real)
    requires ExpSteady(exp) && e > 0.0 && Near(log - log', 4.5 * gap)
    ensures Near(exp(e * log) - exp(e * log'), 54.0 * (gap * e) + JUMP)
  {
    NearProduct(log - log', 4.5 * gap, e, e);
    assert (log - log') * e == e * log - e * log';
    assert 4.5 * gap * e == 4.5 * (gap * e);
    assert ExpSteadyAt(exp, e * log, e * log', 4.5 * (gap * e));
  }

  lemma ExactPowersClose(e: real, log: real, log': real, gap: real, n: nat, l: nat)
    requires e > 0.0 && n >= 21 && l >= 21 && Near(log - log', 4.5 * gap)
    ensures Near(ExactPower(log, e, n, l) - ExactPower(log', e, n, l), 54.0 * (gap * e) + JUMP)
  {
    var exp := (a: real) => ExpOf(a, n, l);
    SeriesExpSteady(exp, n, l);
    ExactPowerIs(log, e, e * log, n, l);
    ExactPowerIs(log', e, e * log', n, l);
    PowersClose(exp, e, log, log', gap);
  }

  // ----------------------------------------------------------------- the payout

  /** What is paid of a reserve, against what the exact power leaves of it. */
  lemma PaidIsClose(reserve: int, p: int, out: int, near: real, exact: real, distance: real, moved: real)
    requires reserve >= 0 && out == reserve * (PowerError.ONE - p) / PowerError.ONE
    requires Near(p as real - PowerError.ONE as real * near, distance) && Near(near - exact, moved)
    ensures Near(out as real - reserve as real * (1.0 - exact), 1.0 + reserve as real * (distance / PowerError.ONE as real + moved))
  {
    var one := PowerError.ONE;
    var rem := reserve * (one - p) % one;
    assert reserve * (one - p) == out * one + rem && 0 <= rem < one;
    var share := p as real / one as real;
    assert share * one as real == p as real;
    RealDivision(reserve, one - p, one, out, rem);
    PaidShare(reserve as real, one as real, p as real, out as real, rem as real, share);
    UnitShare(reserve as real * (1.0 - share) - out as real, one as real, rem as real);
    var bound := distance / one as real;
    ShareNear(p as real, one as real, near, distance, share, bound);
    LeftNear(reserve as real, share, exact, out as real, bound + moved);
  }

  lemma LeftNear(reserve: real, share: real, exact: real, out: real, bound: real)
    requires reserve >= 0.0 && Near(share - exact, bound) && 0.0 <= reserve * (1.0 - share) - out <= 1.0
    ensures Near(out - reserve * (1.0 - exact), 1.0 + reserve * bound)
  {
    NearProduct(share - exact, bound, reserve, reserve);
    LeftDiffers(reserve, share, exact, bound);
    LeftSum(out, reserve * (1.0 - share), reserve * (1.0 - exact), (share - exact) * reserve, reserve * bound);
  }

  lemma LeftDiffers(reserve: real, share: real, exact: real, bound: real)
    ensures (share - exact) * reserve == reserve * (1.0 - exact) - reserve * (1.0 - share)
    ensures bound * reserve == reserve * bound
  {
  }

  lemma LeftSum(out: real, stored: real, exact: real, d: real, bound: real)
    requires d == exact - stored && Near(d, bound) && 0.0 <= stored - out <= 1.0
    ensures Near(out - exact, 1.0 + bound)
  {
  }

  lemma PaidShare(reserve: real, one: real, p: real, out: real, rem: real, share: real)
    requires share * one == p && reserve * (one - p) == out * one + rem
    ensures (reserve * (1.0 - share) - out) * one == rem
  {
    assert reserve * (1.0 - share) * one == reserve * (one - share * one);
  }

  lemma ShareNear(p: real, one: real, near: real, distance: real, share: real, bound: real)
    requires one > 0.0 && share * one == p && bound == distance / one && Near(p - one * near, distance)
    ensures Near(share - near, bound)
  {
    assert one * (share - near) == p - one * near;
    var q := Unscale(one, share - near, distance);
  }

  // ------------------------------------------------------------------ the swaps

  /** The numbers of a priced buy: the floored price ratio in units, as a number, and
      the exact ratio; the exponent; and the scaled logarithm is left to the kernels. */
  predicate PriceIs(rc: u128, cIn: u128, wToken: u128, wCollateral: u128, base: u128, r: real, q: real, e: real) {
    && rc > 0 && cIn > 0 && wToken > 0 && base == Kernels.Base(rc, cIn)
    && IsBase(base, r) && q * (rc + cIn) as real == rc as real && e == Exponent(wCollateral, wToken)
  }

  /** What the floor of the price ratio can move the exact power by. */
  function RatioMove(base: int, e: real): real
    requires base > 0
  {
    54.0 * (0.8 / base as real * e) + JUMP
  }

  /** How far a payout can be from the exact one: one unit, and the reserve's share of
      what the power and the floored ratio can be off. */
  function PayoutDistance(reserve: int, powerDistance: real, base: int, e: real): real
    requires base > 0
  {
    1.0 + reserve as real * (powerDistance / PowerError.ONE as real + RatioMove(base, e))
  }

  lemma PaidWithin(reserve: int, p: int, out: int, near: real, exact: real, distance: real, base: int, e: real)
    requires reserve >= 0 && base > 0 && out == reserve * (PowerError.ONE - p) / PowerError.ONE
    requires Near(p as real - PowerError.ONE as real * near, distance) && Near(near - exact, RatioMove(base, e))
    ensures Near(out as real - reserve as real * (1.0 - exact), PayoutDistance(reserve, distance, base, e))
  {
    PaidIsClose(reserve, p, out, near, exact, distance, RatioMove(base, e));
  }

  lemma ShareOver(base: int) returns (gap: real)
    requires base >= 1
    ensures gap == 0.8 / base as real && gap * base as real == 0.8
  {
    gap := 0.8 / base as real;
  }

  lemma PriceMoves(base: u128, r: real, q: real, e: real, s: nat, n: nat, l: nat)
    requires Floors(r, q, base) && 0.5 <= Mantissa(r, s) <= 1.4143 && e > 0.0 && n >= 21 && l >= 21
    ensures Near(ExactPower(LogAt(r, s, n, l), e, n, l) - ExactPower(LogAt(q, s, n, l), e, n, l), RatioMove(base, e))
  {
    var gap := ShareOver(base);
    LogAtFloor(r, q, base, s, n, l, gap);
    PriceMovesAt(base, e, LogAt(r, s, n, l), LogAt(q, s, n, l), gap, n, l);
  }

  lemma PriceMovesAt(base: u128, e: real, log: real, log': real, gap: real, n: nat, l: nat)
    requires base > 0 && gap == 0.8 / base as real && e > 0.0 && n >= 21 && l >= 21 && Near(log - log', 4.5 * gap)
    ensures Near(ExactPower(log, e, n, l) - ExactPower(log', e, n, l), RatioMove(base, e))
  {
    ExactPowersClose(e, log, log', gap, n, l);
    RatioMoveIs(base, e, gap);
  }

  lemma RatioMoveIs(base: int, e: real, gap: real)
    requires base > 0 && gap == 0.8 / base as real
    ensures RatioMove(base, e) == 54.0 * (gap * e) + JUMP
  {
  }

  /** The mantissas of both kernels are inside their windows. */
  lemma BinMantissa(x: int, r: real)
    requires 0 < x < PowerError.ONE && IsBase(x, r)
    ensures 0.5 <= Mantissa(r, BinShifts(x)) <= 1.4143
  {
    var xx, j, m0, m, k := BinPieces(x, r);
    ExactMantissa(r, j, k, xx);
    ScaledMantissa(xx, m0, k, m, Mantissa(r, j + k));
    assert SQRT2_HALF_62 as real <= m as real <= 2.0 * SQRT2_HALF_62 as real;
  }

  lemma DecMantissa(x: int, r: real)
    requires 0 < x < PowerError.ONE && IsBase(x, r)
    ensures 0.5 <= Mantissa(r, DecShifts(x)) <= 1.4143
  {
    NormalisedIs(x, PowerError.ONE / 2, r);
    Weighted.NegLogBound(x);
    InsideWindow(Mantissa(r, DecShifts(x)), Normalised(x, PowerError.ONE / 2).0);
  }

  lemma InsideWindow(m: real, scaled: int)
    requires m * PowerError.ONE as real == scaled as real && PowerError.ONE / 2 <= scaled < PowerError.ONE
    ensures 0.5 <= m <= 1.4143
  {
  }

  /** Every binary payout at unequal weights whose power is below the zero cut-off. */
  lemma BinPayoutIsClose(reserve: u128, rc: u128, cIn: u128, wToken: u128, wCollateral: u128,
                         base: u128, r: real, q: real, e: real, y: int, n: nat, l: nat)
      returns (exact: real)
    requires Kernels.Priced(reserve, rc, cIn, wToken, wCollateral) && wToken != wCollateral && n >= 21 && l >= 21
    requires PriceIs(rc, cIn, wToken, wCollateral, base, r, q, e) && base > 0
    requires y == BinPower.NegLog18(base) * wCollateral / wToken < 100 * LN2_62
    ensures BinPower.WeightedBuy(reserve, rc, cIn, wToken, wCollateral).Ok? && 0 <= y / LN2_62 && q > 0.0
    ensures exact == ExactPower(LogAt(q, BinShifts(base), n, l), e, n, l)
    ensures Near(BinPower.WeightedBuy(reserve, rc, cIn, wToken, wCollateral).value as real - reserve as real * (1.0 - exact),
                 PayoutDistance(reserve, BinDistance(y / LN2_62, BinShifts(base), e), base, e))
  {
    var p, near;
    p, near, exact := BinPowers(rc, cIn, wToken, wCollateral, base, r, q, e, y, n, l);
    var out := BinOut(reserve, rc, cIn, wToken, wCollateral, base, p);
    PaidWithin(reserve, p, out, near, exact, BinDistance(y / LN2_62, BinShifts(base), e), base, e);
  }

  lemma BinOut(reserve: u128, rc: u128, cIn: u128, wToken: u128, wCollateral: u128, base: u128, p: u128) returns (out: int)
    requires Kernels.Priced(reserve, rc, cIn, wToken, wCollateral) && base == Kernels.Base(rc, cIn)
    requires BinPower.PowFrac(base, wCollateral, wToken) == Ok(p)
    ensures BinPower.WeightedBuy(reserve, rc, cIn, wToken, wCollateral) == Ok(out) && out == reserve * (PowerError.ONE - p) / PowerError.ONE
  {
    BinPower.WeightedBuyIs(reserve, rc, cIn, wToken, wCollateral);
    out := BinPower.WeightedBuy(reserve, rc, cIn, wToken, wCollateral).value;
  }

  lemma DecOut(reserve: u128, rc: u128, cIn: u128, wToken: u128, wCollateral: u128, base: u128, p: u128) returns (out: int)
    requires Kernels.Priced(reserve, rc, cIn, wToken, wCollateral) && base == Kernels.Base(rc, cIn)
    requires Weighted.PowFrac(base, wCollateral, wToken) == Ok(p)
    ensures Weighted.WeightedBuy(reserve, rc, cIn, wToken, wCollateral) == Ok(out) && out == reserve * (PowerError.ONE - p) / PowerError.ONE
  {
    Weighted.WeightedBuyIs(reserve, rc, cIn, wToken, wCollateral);
    out := Weighted.WeightedBuy(reserve, rc, cIn, wToken, wCollateral).value;
  }

  lemma DecPowerAnswers(reserve: u128, rc: u128, cIn: u128, wToken: u128, wCollateral: u128, base: u128)
    requires Kernels.Priced(reserve, rc, cIn, wToken, wCollateral) && base == Kernels.Base(rc, cIn)
    requires Weighted.WeightedBuy(reserve, rc, cIn, wToken, wCollateral).Ok?
    ensures Weighted.PowFrac(base, wCollateral, wToken).Ok?
  {
    Weighted.WeightedBuyIs(reserve, rc, cIn, wToken, wCollateral);
  }

  /** The stored power, the exact one at the floored ratio, and the exact one. */
  lemma BinPowers(rc: u128, cIn: u128, wToken: u128, wCollateral: u128, base: u128, r: real, q: real, e: real, y: int, n: nat, l: nat)
      returns (p: u128, near: real, exact: real)
    requires rc > 0 && cIn > 0 && wToken > 0 && wCollateral > 0 && wToken != wCollateral && rc + cIn < TWO_POW_128 && n >= 21 && l >= 21
    requires PriceIs(rc, cIn, wToken, wCollateral, base, r, q, e) && base > 0
    requires y == BinPower.NegLog18(base) * wCollateral / wToken < EXP_ZERO_ABOVE
    ensures BinPower.PowFrac(base, wCollateral, wToken) == Ok(p) && 0 <= y / LN2_62 && q > 0.0
    ensures exact == ExactPower(LogAt(q, BinShifts(base), n, l), e, n, l)
    ensures Near(p as real - PowerError.ONE as real * near, BinDistance(y / LN2_62, BinShifts(base), e)) && Near(near - exact, RatioMove(base, e))
  {
    FlooredRatio(rc, rc + cIn, base, r, q);
    ExponentTimes(wCollateral, wToken);
    BinMantissa(base, r);
    PriceMoves(base, r, q, e, BinShifts(base), n, l);
    near, exact := ExactPower(LogAt(r, BinShifts(base), n, l), e, n, l), ExactPower(LogAt(q, BinShifts(base), n, l), e, n, l);
    BinPowerIsClose(base, wCollateral, wToken, n, l, r, e, y);
    p := BinPower.PowFrac(base, wCollateral, wToken).value;
  }

  /** Every decimal payout at unequal weights that is not refused. */
  lemma DecPayoutIsClose(reserve: u128, rc: u128, cIn: u128, wToken: u128, wCollateral: u128,
                         base: u128, r: real, q: real, e: real, y: int, n: nat, l: nat)
      returns (exact: real)
    requires Kernels.Priced(reserve, rc, cIn, wToken, wCollateral) && wToken != wCollateral && n >= 24 && l >= 21
    requires PriceIs(rc, cIn, wToken, wCollateral, base, r, q, e) && base > 0
    requires y == Weighted.NegLog(base) * wCollateral / wToken && Weighted.WeightedBuy(reserve, rc, cIn, wToken, wCollateral).Ok?
    ensures 0 <= y / Weighted.LN2 && q > 0.0
    ensures exact == ExactPower(LogAt(q, DecShifts(base), n, l), e, n, l)
    ensures Near(Weighted.WeightedBuy(reserve, rc, cIn, wToken, wCollateral).value as real - reserve as real * (1.0 - exact),
                 PayoutDistance(reserve, DecDistance(y / Weighted.LN2, DecShifts(base), e), base, e))
  {
    DecPowerAnswers(reserve, rc, cIn, wToken, wCollateral, base);
    var p, near;
    p, near, exact := DecPowers(rc, cIn, wToken, wCollateral, base, r, q, e, y, n, l);
    var out := DecOut(reserve, rc, cIn, wToken, wCollateral, base, p);
    PaidWithin(reserve, p, out, near, exact, DecDistance(y / Weighted.LN2, DecShifts(base), e), base, e);
  }

  lemma DecPowers(rc: u128, cIn: u128, wToken: u128, wCollateral: u128, base: u128, r: real, q: real, e: real, y: int, n: nat, l: nat)
      returns (p: u128, near: real, exact: real)
    requires rc > 0 && cIn > 0 && wToken > 0 && wCollateral > 0 && wToken != wCollateral && rc + cIn < TWO_POW_128 && n >= 24 && l >= 21
    requires PriceIs(rc, cIn, wToken, wCollateral, base, r, q, e) && base > 0
    requires y == Weighted.NegLog(base) * wCollateral / wToken && Weighted.PowFrac(base, wCollateral, wToken).Ok?
    ensures Weighted.PowFrac(base, wCollateral, wToken) == Ok(p) && 0 <= y / Weighted.LN2 && q > 0.0
    ensures exact == ExactPower(LogAt(q, DecShifts(base), n, l), e, n, l)
    ensures Near(p as real - PowerError.ONE as real * near, DecDistance(y / Weighted.LN2, DecShifts(base), e)) && Near(near - exact, RatioMove(base, e))
  {
    FlooredRatio(rc, rc + cIn, base, r, q);
    ExponentTimes(wCollateral, wToken);
    DecMantissa(base, r);
    PriceMoves(base, r, q, e, DecShifts(base), n, l);
    near, exact := ExactPower(LogAt(r, DecShifts(base), n, l), e, n, l), ExactPower(LogAt(q, DecShifts(base), n, l), e, n, l);
    DecPowerIsClose(base, wCollateral, wToken, n, l, r, e, y);
    p := Weighted.PowFrac(base, wCollateral, wToken).value;
  }
}
