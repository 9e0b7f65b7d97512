/** What the power and the payout of either kernel are worth: within a stated distance,
    linear in the exponent, of the exact power of the base and of the exact payout. */
module PowerValue {
  import opened Arithmetic
  import opened BinError
  import opened BinFixed
  import opened ExpHalves
  import opened Horner
  import opened LongSeries
  import opened PowerError
  import opened WideInt
  import opened Words
  import opened Wrappers
  import BinPower
  import DecError
  import Weighted

  /** What is used of the exponential. */
  ghost predicate ExpSteady(exp: real -> real) {
    forall d, e, gap :: ExpSteadyAt(exp, d, e, gap)
  }

  predicate ExpSteadyAt(exp: real -> real, d: real, e: real, gap: real) {
    Near(d - e, gap) ==> Near(exp(d) - exp(e), 12.0 * gap + JUMP)
  }

  lemma SeriesExpSteady(exp: real -> real, n: nat, l: nat)
    requires n >= 21 && l >= 21 && forall e {:trigger exp(e)} :: exp(e) == ExpOf(e, n, l)
    ensures ExpSteady(exp)
  {
    forall d, e, gap
      ensures ExpSteadyAt(exp, d, e, gap)
    {
      if Near(d - e, gap) {
        ExpOfMoves(d, e, gap, n, l);
      }
    }
  }

  // -------------------------------------------------------------- the exponent

  /** The scaled logarithm against the exponent times the exact logarithm. */
  lemma ScaledLog(nl: int, log: real, scale: real, num: int, den: int, e: real, y: int, slack: real)
    requires nl >= 0 && num > 0 && den > 0 && y == nl * num / den && e * den as real == num as real
    requires Near(nl as real - scale * log, slack)
    ensures e > 0.0 && Near(y as real - scale * (e * log), 1.0 + slack * e)
  {
    var r := nl * num % den;
    assert nl * num == y * den + r && 0 <= r < den;
    RealDivision(nl, num, den, y, r);
    ExactExponent(nl as real, num as real, den as real, e, y as real, r as real);
    var rest := nl as real * e - y as real;
    assert 0.0 <= rest <= 1.0;
    NearProduct(nl as real - scale * log, slack, e, e);
    Spread3(nl as real, scale, log, e);
  }

  lemma RealDivision(nl: int, num: int, den: int, y: int, r: int)
    requires nl * num == y * den + r
    ensures nl as real * num as real == y as real * den as real + r as real
  {
    assert (nl * num) as real == nl as real * num as real;
    assert (y * den) as real == y as real * den as real;
  }

  lemma ExactExponent(nl: real, num: real, den: real, e: real, y: real, r: real)
    requires num > 0.0 && den > 0.0 && e * den == num && nl * num == y * den + r && 0.0 <= r <= den
    ensures e > 0.0 && 0.0 <= nl * e - y <= 1.0
  {
    if e <= 0.0 {
      MulLe(e, 0.0, den);
    }
    var rest := nl * e - y;
    assert rest * den == nl * (e * den) - y * den;
    UnitShare(rest, den, r);
  }

  lemma UnitShare(rest: real, den: real, r: real)
    requires den > 0.0 && rest * den == r && 0.0 <= r <= den
    ensures 0.0 <= rest <= 1.0
  {
    if rest < 0.0 {
      Cancel(0.0, rest, den);
    } else if rest > 1.0 {
      Cancel(rest, 1.0, den);
    }
  }

  lemma Spread3(nl: real, scale: real, log: real, e: real)
    ensures (nl - scale * log) * e == nl * e - scale * (e * log)
  {
  }

  /** From a place `a` of the exponential close to the stored argument, to the exact one. */
  lemma ExpAtExact(exp: real -> real, scale: real, a: real, y: real, target: real, v: real, c: real, half: real, move: real)
    requires ExpSteady(exp) && scale > 0.0 && Near(v - scale * exp(a), c)
    requires Near(scale * a - y, half) && Near(y - scale * target, move)
    ensures Near(v - scale * exp(target), c + 12.0 * (half + move) + scale * JUMP)
  {
    assert Near(scale * (a - target), half + move) by {
      assert scale * (a - target) == scale * a - scale * target;
    }
    var gap := Unscale(scale, a - target, half + move);
    assert ExpSteadyAt(exp, a, target, gap);
    ScaleUp(v, scale, exp(a), exp(target), c, gap, half + move);
  }

  lemma ScaleUp(v: real, scale: real, near: real, exact: real, c: real, gap: real, scaled: real)
    requires scale > 0.0 && gap * scale == scaled && Near(v - scale * near, c) && Near(near - exact, 12.0 * gap + JUMP)
    ensures Near(v - scale * exact, c + 12.0 * scaled + scale * JUMP)
  {
    var d := near - exact;
    NearProduct(d, 12.0 * gap + JUMP, scale, scale);
    assert (12.0 * gap + JUMP) * scale == 12.0 * scaled + scale * JUMP;
    assert d * scale == scale * near - scale * exact;
  }

  // ------------------------------------------------------------ the binary power

  /** The place of the stored exponential: its remainder, after as many true ln 2. */
  lemma BinExpAt(y: int, n: nat, l: nat) returns (k: nat, a: real)
    requires 0 <= y < EXP_ZERO_ABOVE && n >= 21 && l >= 21
    ensures k == y / LN2_62
    ensures Near(UNIT * a - y as real, 0.5 * k as real) && Near(ExpNeg(y) as real - UNIT * ExpOf(a, n, l), 5.91)
  {
    var s, x;
    k, s, x, a := BinPlace(y, l);
    ExpOfIs(k, x, a, n, l);
    BinStored(y, k, s, x, n, ExpOf(a, n, l));
  }

  lemma BinPlace(y: int, l: nat) returns (k: nat, s: int, x: real, a: real)
    requires 0 <= y < EXP_ZERO_ABOVE && l >= 21
    ensures k == y / LN2_62 && s == y % LN2_62 && 0 <= s < LN2_62 && x == s as real / UNIT
    ensures 0.0 <= x < Ln2Series(l) && a == k as real * Ln2Series(l) + x && Near(UNIT * a - y as real, 0.5 * k as real)
  {
    DivMod(y, LN2_62);
    StoredLn2(l - 21);
    k, s := y / LN2_62, y % LN2_62;
    x := s as real / UNIT;
    BelowLn2(s, x, Ln2Series(l));
    a := k as real * Ln2Series(l) + x;
    PlaceIsClose(y, k, s, x, Ln2Series(l), a);
  }

  lemma BinStored(y: int, k: nat, s: int, x: real, n: nat, value: real)
    requires 0 <= y < EXP_ZERO_ABOVE && n >= 21 && k == y / LN2_62 && s == y % LN2_62 && 0 <= s < LN2_62
    requires x == s as real / UNIT && value == Polynomial(ExpExact, x, n) / Pow2(k) as real
    ensures Near(ExpNeg(y) as real - UNIT * value, 5.91)
  {
    if y == 0 {
      BinAtZero(x, n, value);
    } else {
      ExpNegIs(y);
      BinShifted(Floored(ExpCoeff, s, 0, 20), Pow2(k), ExpNeg(y), s, x, n, value);
    }
  }

  lemma BinAtZero(x: real, n: nat, value: real)
    requires n >= 1 && x == 0.0 && value == Polynomial(ExpExact, x, n) / Pow2(0) as real
    ensures ExpNeg(0) == ONE62 && value == 1.0
  {
    OneAtZero(n);
    assert Pow2(0) == 1;
  }

  lemma BinShifted(v: int, p: int, out: int, s: int, x: real, n: nat, value: real)
    requires 0 <= s < LN2_62 && v == Floored(ExpCoeff, s, 0, 20) && x == s as real / UNIT && n >= 21
    requires p >= 1 && out == v / p && value == Polynomial(ExpExact, x, n) / p as real
    ensures Near(out as real - UNIT * value, 5.91)
  {
    BinPass(v, s, x, n - 1);
    Shifted(v, p, out, UNIT, Polynomial(ExpExact, x, n), 4.91, value);
  }

  lemma BelowLn2(s: int, x: real, ln2: real)
    requires 0 <= s < LN2_62 && x == s as real / UNIT && Near(LN2_62 as real - UNIT * ln2, 0.5)
    ensures 0.0 <= x < ln2
  {
  }

  lemma PlaceIsClose(y: int, k: nat, s: int, x: real, ln2: real, a: real)
    requires y == k * LN2_62 + s && x == s as real / UNIT && a == k as real * ln2 + x && Near(LN2_62 as real - UNIT * ln2, 0.5)
    ensures Near(UNIT * a - y as real, 0.5 * k as real)
  {
    Shifts(k, LN2_62, UNIT, ln2);
    assert y as real == (k * LN2_62) as real + s as real;
    assert UNIT * x == s as real;
  }

  /** A floored shift of what is close to a series. */
  lemma Shifted(v: int, p: int, out: int, scale: real, series: real, c: real, value: real)
    requires p >= 1 && out == v / p && Near(v as real - scale * series, c) && value == series / p as real
    ensures Near(out as real - scale * value, c + 1.0)
  {
    NearShifted(v, p, scale * series, c);
    OverOne(c, p as real);
    assert scale * series / p as real == scale * value;
  }

  lemma OverOne(c: real, p: real)
    requires c >= 0.0 && p >= 1.0
    ensures 0.0 <= c / p <= c
  {
    var q := c / p;
    assert q * p == c;
    if q > c {
      Cancel(q, c, p);
      MulLe(1.0, p, c);
    } else if q < 0.0 {
      Cancel(0.0, q, p);
    }
  }

  /** The exponent as a number. */
  function Exponent(num: int, den: int): real
    requires den > 0
  {
    num as real / den as real
  }

  lemma ExponentTimes(num: int, den: int)
    requires num > 0 && den > 0
    ensures Exponent(num, den) * den as real == num as real && Exponent(num, den) > 0.0
  {
    var e := Exponent(num, den);
    assert e * den as real == num as real;
    if e <= 0.0 {
      MulLe(e, 0.0, den as real);
    }
  }

  /** The exact power: the exponential of the exponent times the exact logarithm. */
  function ExactPower(log: real, e: real, n: nat, l: nat): real
    requires l >= 21
  {
    ExpOf(e * log, n, l)
  }

  /** By how many units at scale 2^62 the argument of the exponential can be off. */
  function BinGap(k: nat, s: nat, e: real): real {
    1.0 + 0.5 * k as real + (10.6 + 0.5 * s as real) * e
  }

  /** By how many units at scale 1e18 the binary power can be off. */
  function BinDistance(k: nat, s: nat, e: real): real {
    4.0 + 2.61 * BinGap(k, s, e)
  }

  lemma Rescaled(v: int, value: int, exact: real, gap: real)
    requires value == v * ONE / ONE62 && gap >= 0.0 && Near(v as real - UNIT * exact, 5.91 + 12.0 * gap + UNIT * JUMP)
    ensures Near(value as real - ONE as real * exact, 4.0 + 2.61 * gap)
  {
    var r := v * ONE % ONE62;
    assert v * ONE == value * ONE62 + r && 0 <= r < ONE62;
    var d := v as real - UNIT * exact;
    assert UNIT * (value as real - ONE as real * exact) == ONE as real * d - r as real;
    assert UNIT * JUMP <= 6.0;
  }

  lemma AtPower(exp: real -> real, scale: real, a: real, nl: int, log: real, num: int, den: int, e: real, y: int, v: int,
                c: real, half: real, slack: real, moved: real, target: real)
    requires ExpSteady(exp) && scale > 0.0 && Near(v as real - scale * exp(a), c) && Near(scale * a - y as real, half)
    requires nl >= 0 && num > 0 && den > 0 && y == nl * num / den && e == Exponent(num, den) && Near(nl as real - scale * log, slack)
    requires moved == slack * e && target == e * log
    ensures Near(v as real - scale * exp(target), c + 12.0 * (half + (1.0 + moved)) + scale * JUMP)
  {
    ExponentTimes(num, den);
    ScaledLog(nl, log, scale, num, den, e, y, slack);
    ExpAtExact(exp, scale, a, y as real, target, v as real, c, half, 1.0 + moved);
  }

  /** From the stored logarithm and a place of the exponential to the power. */
  lemma BinFinish(exp: real -> real, nl: int, log: real, num: int, den: int, e: real, y: int, k: nat, a: real, s: nat, v: int, value: int, target: real)
    requires ExpSteady(exp) && nl >= 0 && num > 0 && den > 0 && y == nl * num / den && value == v * ONE / ONE62
    requires Near(UNIT * a - y as real, 0.5 * k as real) && Near(v as real - UNIT * exp(a), 5.91)
    requires Near(nl as real - UNIT * log, 10.6 + 0.5 * s as real) && e == Exponent(num, den) && target == e * log
    ensures Near(value as real - ONE as real * exp(target), BinDistance(k, s, e))
  {
    var slack := 10.6 + 0.5 * s as real;
    var moved := slack * e;
    AtPower(exp, UNIT, a, nl, log, num, den, e, y, v, 5.91, 0.5 * k as real, slack, moved, target);
    GapPositive(k, s, num, den);
    BinLast(v, value, exp(target), 0.5 * k as real, moved, BinGap(k, s, e));
  }

  lemma BinLast(v: int, value: int, exact: real, half: real, slack: real, gap: real)
    requires value == v * ONE / ONE62 && gap == 1.0 + half + slack >= 0.0
    requires Near(v as real - UNIT * exact, 5.91 + 12.0 * (half + (1.0 + slack)) + UNIT * JUMP)
    ensures Near(value as real - ONE as real * exact, 4.0 + 2.61 * gap)
  {
    Rescaled(v, value, exact, gap);
  }

  /** A base and its doublings as numbers. */
  predicate IsBase(x: int, r: real) {
    r * ONE as real == x as real && r > 0.0
  }

  /** Every binary power of a proper fraction below the zero cut-off is within a stated
      distance, linear in the exponent, of the exact one; sums of any length from the
      code's own on. */
  lemma BinPowerIsClose(x: u128, num: u128, den: u128, n: nat, l: nat, r: real, e: real, y: int)
    requires 0 < x < ONE && IsBase(x, r) && 0 < num != den && den > 0 && e == Exponent(num, den) && n >= 21 && l >= 21
    requires y == BinPower.NegLog18(x) * num / den < 100 * LN2_62
    ensures BinPower.PowFrac(x, num, den).Ok? && 0 <= y / LN2_62
    ensures Near(BinPower.PowFrac(x, num, den).value as real - ONE as real * ExactPower(LogAt(r, BinShifts(x), n, l), e, n, l),
                 BinDistance(y / LN2_62, BinShifts(x), e))
  {
    BinPower.NegLog18Bound(x);
    var y' := Quotient(BinPower.NegLog18(x), num, den);
    BinValue(x, num, den, y);
    var log := BinLogRead(x, r, BinShifts(x), BinPower.NegLog18(x), n, l);
    ExactPowerIs(log, e, e * log, n, l);
    BinPowerFor(BinPower.NegLog18(x), log, num, den, e, y, BinShifts(x), n, l, BinPower.PowFrac(x, num, den).value, e * log);
  }

  lemma BinLogRead(x: int, r: real, s: nat, nl: int, n: nat, l: nat) returns (log: real)
    requires 0 < x <= ONE && IsBase(x, r) && s == BinShifts(x) && nl == BinPower.NegLog18(x) && n >= 13 && l >= 21
    ensures log == LogAt(r, s, n, l) && Near(nl as real - UNIT * log, 10.6 + 0.5 * s as real)
  {
    BinLogOfBase(x, r, n, l);
    log := LogAt(r, s, n, l);
  }

  lemma ExactPowerIs(log: real, e: real, target: real, n: nat, l: nat)
    requires l >= 21 && target == e * log
    ensures ExactPower(log, e, n, l) == ExpOf(target, n, l)
  {
  }

  lemma BinPowerFor(nl: int, log: real, num: int, den: int, e: real, y: int, s: nat, n: nat, l: nat, value: int, target: real)
    requires nl >= 0 && num > 0 && den > 0 && y == nl * num / den && 0 <= y < EXP_ZERO_ABOVE && n >= 21 && l >= 21
    requires value == ExpNeg(y) * ONE / ONE62 && Near(nl as real - UNIT * log, 10.6 + 0.5 * s as real)
    requires e == Exponent(num, den) && target == e * log
    ensures 0 <= y / LN2_62
    ensures Near(value as real - ONE as real * ExpOf(target, n, l), BinDistance(y / LN2_62, s, e))
  {
    var k, a := BinExpAt(y, n, l);
    var exp := (e: real) => ExpOf(e, n, l);
    SeriesExpSteady(exp, n, l);
    BinFinish(exp, nl, log, num, den, e, y, k, a, s, ExpNeg(y), value, target);
  }

  lemma Quotient(nl: int, num: int, den: int) returns (y: int)
    requires nl >= 0 && num > 0 && den > 0
    ensures y == nl * num / den && y >= 0
  {
    MulMono(0, num, nl);
    y := nl * num / den;
    FloorAdjoint(0, nl * num, den);
  }

  lemma BinValue(x: u128, num: u128, den: u128, y: int)
    requires 0 < x < ONE && 0 < num != den && den > 0 && y == BinPower.NegLog18(x) * num / den && 0 <= y < EXP_ZERO_ABOVE
    ensures BinPower.PowFrac(x, num, den) == Ok(ExpNeg(y) * ONE / ONE62)
  {
    BinPower.NegLog18Bound(x);
  }

  lemma GapPositive(k: nat, s: nat, num: int, den: int)
    requires num > 0 && den > 0
    ensures BinGap(k, s, Exponent(num, den)) >= 0.0
  {
    ExponentTimes(num, den);
    NotNegativeProduct(10.6 + 0.5 * s as real, Exponent(num, den));
  }

  // ----------------------------------------------------------- the decimal power

  /** The place of the stored exponential on the decimal kernel. */
  lemma DecExpAt(y: nat, n: nat, l: nat) returns (k: nat, a: real)
    requires n >= 24 && l >= 21
    ensures k == y / Weighted.LN2
    ensures Near(SCALE * a - y as real, 0.5 * k as real) && Near(Weighted.Exp(y) as real - SCALE * ExpOf(a, n, l), 80.3)
  {
    var r, x;
    k, r, x, a := DecPlace(y, l);
    ExpOfIs(k, x, a, n, l);
    DecStored(y, k, r, x, n, ExpOf(a, n, l));
  }

  lemma DecPlace(y: nat, l: nat) returns (k: nat, r: nat, x: real, a: real)
    requires l >= 21
    ensures k == y / Weighted.LN2 && r == y % Weighted.LN2 && r < Weighted.LN2 && x == r as real / SCALE
    ensures 0.0 <= x < Ln2Series(l) && a == k as real * Ln2Series(l) + x && Near(SCALE * a - y as real, 0.5 * k as real)
  {
    DivMod(y, Weighted.LN2);
    StoredLn2(l - 21);
    k, r := y / Weighted.LN2, y % Weighted.LN2;
    x := r as real / SCALE;
    DecBelowLn2(r, x, Ln2Series(l));
    a := k as real * Ln2Series(l) + x;
    DecPlaceIsClose(y, k, r, x, Ln2Series(l), a);
  }

  lemma DecBelowLn2(r: int, x: real, ln2: real)
    requires 0 <= r < Weighted.LN2 && x == r as real / SCALE && Near(Weighted.LN2 as real - SCALE * ln2, 0.5)
    ensures 0.0 <= x < ln2
  {
  }

  lemma DecPlaceIsClose(y: int, k: nat, r: int, x: real, ln2: real, a: real)
    requires y == k * Weighted.LN2 + r && x == r as real / SCALE && a == k as real * ln2 + x && Near(Weighted.LN2 as real - SCALE * ln2, 0.5)
    ensures Near(SCALE * a - y as real, 0.5 * k as real)
  {
    Shifts(k, Weighted.LN2, SCALE, ln2);
    assert y as real == (k * Weighted.LN2) as real + r as real;
    assert SCALE * x == r as real;
  }

  lemma DecStored(y: nat, k: nat, r: nat, x: real, n: nat, value: real)
    requires n >= 24 && k == y / Weighted.LN2 && r == y % Weighted.LN2 && r < Weighted.LN2
    requires x == r as real / SCALE && value == Polynomial(ExpExact, x, n) / Pow2(k) as real
    ensures Near(Weighted.Exp(y) as real - SCALE * value, 80.3)
  {
    if y == 0 {
      DecAtZero(x, n, value);
    } else {
      DecError.ExpIs(y);
      var s := Weighted.ExpState(r, Weighted.EXP_TERMS - 1);
      DecShiftedValue(s.pos - s.neg, Pow2(k), Weighted.Exp(y), r, x, n, value);
    }
  }

  lemma DecAtZero(x: real, n: nat, value: real)
    requires n >= 1 && x == 0.0 && value == Polynomial(ExpExact, x, n) / Pow2(0) as real
    ensures Weighted.Exp(0) == Weighted.ONE && value == 1.0
  {
    OneAtZero(n);
    assert Pow2(0) == 1;
  }

  lemma DecShiftedValue(v: int, p: int, out: int, r: nat, x: real, n: nat, value: real)
    requires r < Weighted.LN2 && x == r as real / SCALE && n >= 24
    requires var s := Weighted.ExpState(r, Weighted.EXP_TERMS - 1); v == s.pos - s.neg
    requires p >= 1 && out == v / p && value == Polynomial(ExpExact, x, n) / p as real
    ensures Near(out as real - SCALE * value, 80.3)
  {
    LongPass(r, v, n - 24);
    Shifted(v, p, out, SCALE, Polynomial(ExpExact, x, n), 79.3, value);
  }

  function DecGap(k: nat, s: nat, e: real): real {
    1.0 + 0.5 * k as real + (77.0 + 0.5 * s as real) * e
  }

  /** By how many units at scale 1e18 the decimal power can be off. */
  function DecDistance(k: nat, s: nat, e: real): real {
    82.0 + 12.0 * DecGap(k, s, e)
  }

  lemma DecFinish(exp: real -> real, nl: int, log: real, num: int, den: int, e: real, y: int, k: nat, a: real, s: nat, v: int, target: real)
    requires ExpSteady(exp) && nl >= 0 && num > 0 && den > 0 && y == nl * num / den
    requires Near(SCALE * a - y as real, 0.5 * k as real) && Near(v as real - SCALE * exp(a), 80.3)
    requires Near(nl as real - SCALE * log, 77.0 + 0.5 * s as real) && e == Exponent(num, den) && target == e * log
    ensures Near(v as real - SCALE * exp(target), DecDistance(k, s, e))
  {
    var slack := 77.0 + 0.5 * s as real;
    var moved := slack * e;
    AtPower(exp, SCALE, a, nl, log, num, den, e, y, v, 80.3, 0.5 * k as real, slack, moved, target);
    DecLast(v as real, SCALE * exp(target), 0.5 * k as real, moved, DecGap(k, s, e));
  }

  lemma DecLast(v: real, exact: real, half: real, slack: real, gap: real)
    requires gap == 1.0 + half + slack && Near(v - exact, 80.3 + 12.0 * (half + (1.0 + slack)) + SCALE * JUMP)
    ensures Near(v - exact, 82.0 + 12.0 * gap)
  {
    assert SCALE * JUMP <= 1.4;
  }

  lemma DecPowerFor(nl: int, log: real, num: int, den: int, e: real, y: nat, s: nat, n: nat, l: nat, target: real)
    requires nl >= 0 && num > 0 && den > 0 && y == nl * num / den && n >= 24 && l >= 21
    requires Near(nl as real - SCALE * log, 77.0 + 0.5 * s as real) && e == Exponent(num, den) && target == e * log
    ensures 0 <= y / Weighted.LN2
    ensures Near(Weighted.Exp(y) as real - SCALE * ExpOf(target, n, l), DecDistance(y / Weighted.LN2, s, e))
  {
    var k, a := DecExpAt(y, n, l);
    var exp := (e: real) => ExpOf(e, n, l);
    SeriesExpSteady(exp, n, l);
    DecFinish(exp, nl, log, num, den, e, y, k, a, s, Weighted.Exp(y), target);
  }

  /** Every decimal power of a proper fraction that is not refused, at every exponent
      but the first, is within its stated distance of the exact one. */
  lemma DecPowerIsClose(x: u128, num: u128, den: u128, n: nat, l: nat, r: real, e: real, y: int)
    requires 0 < x < ONE && IsBase(x, r) && 0 < num != den && den > 0 && e == Exponent(num, den) && n >= 24 && l >= 21
    requires y == Weighted.NegLog(x) * num / den && Weighted.PowFrac(x, num, den).Ok?
    ensures 0 <= y / Weighted.LN2
    ensures Near(Weighted.PowFrac(x, num, den).value as real - SCALE * ExactPower(LogAt(r, DecShifts(x), n, l), e, n, l),
                 DecDistance(y / Weighted.LN2, DecShifts(x), e))
  {
    Weighted.NegLogBound(x);
    var y' := Quotient(Weighted.NegLog(x), num, den);
    DecValueIs(x, num, den, y);
    var log := DecLogRead(x, r, DecShifts(x), Weighted.NegLog(x), n, l);
    ExactPowerIs(log, e, e * log, n, l);
    DecPowerFor(Weighted.NegLog(x), log, num, den, e, y, DecShifts(x), n, l, e * log);
  }

  lemma DecLogRead(x: int, r: real, s: nat, nl: int, n: nat, l: nat) returns (log: real)
    requires 0 < x < ONE && IsBase(x, r) && s == DecShifts(x) && nl == Weighted.NegLog(x) && n >= 24 && l >= 21
    ensures log == LogAt(r, s, n, l) && Near(nl as real - SCALE * log, 77.0 + 0.5 * s as real)
  {
    DecLogOfBase(x, r, n, l);
    log := LogAt(r, s, n, l);
  }

  lemma DecValueIs(x: u128, num: u128, den: u128, y: nat)
    requires 0 < x < ONE && 0 < num != den && den > 0 && y == Weighted.NegLog(x) * num / den && Weighted.PowFrac(x, num, den).Ok?
    ensures Weighted.PowFrac(x, num, den).value == Weighted.Exp(y)
  {
    Weighted.NegLogBound(x);
  }
}
