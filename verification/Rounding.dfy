/** Which way the powers and the payouts are rounded, and whether the powers are
    monotone in the exponent: src/weighted.rs says down, in the pool's favour, and
    wants monotone. Exactly the bases on which that fails, for both kernels. */
module Rounding {
  import opened Arithmetic
  import opened LogScales
  import opened Kernels
  import opened WideInt
  import opened Words
  import opened Wrappers
  import BinFixed
  import Horner
  import Bin = BinPower
  import Dec = Weighted

  // ------------------------------------------------------- payouts and powers

  /** What a power leaves of the reserve. */
  function Paid(reserveToken: u128, p: u128): int
    requires p <= ONE
  {
    reserveToken * (ONE - p) / ONE
  }

  /** The payout falls as the power rises: rounding the power down rounds the payout up. */
  lemma PayoutFallsAsThePowerRises(reserveToken: u128, p: u128, p': u128)
    requires p <= p' <= ONE
    ensures Paid(reserveToken, p') <= Paid(reserveToken, p)
  {
    MulMono(ONE - p', ONE - p, reserveToken);
    DivMono(reserveToken * (ONE - p'), reserveToken * (ONE - p), ONE);
  }

  lemma RealMono(r: real, a: real, b: real)
    requires r >= 0.0 && a <= b
    ensures r * a <= r * b
  {
  }

  lemma {:induction false} PowPositive(x: real, n: nat)
    requires 0.0 < x <= 1.0
    ensures 0.0 < Horner.Pow(x, n) <= 1.0
  {
    if n > 0 {
      PowPositive(x, n - 1);
      UnitProduct(Horner.Pow(x, n - 1), x);
    }
  }

  lemma UnitProduct(a: real, b: real)
    requires 0.0 < a <= 1.0 && 0.0 < b <= 1.0
    ensures 0.0 < a * b <= 1.0
  {
    PositiveProduct(a, b);
    RealMono(a, b, 1.0);
    assert a * b <= a * 1.0;
    assert a * 1.0 == a;
  }

  // -------------------------------------------------------------- lost powers

  /** An exponent at which the power comes out as zero. */
  predicate BinVanishes(x: u128, n: u128)
    requires 0 < x < ONE
  {
    n > 1 && BinFixed.EXP_ZERO_ABOVE <= Bin.NegLog18(x) * n < TWO_POW_127
  }

  predicate DecVanishes(x: u128, n: u128)
    requires 0 < x < ONE
  {
    n > 1 && 60 * Dec.LN2 <= Dec.NegLog(x) * n < TWO_POW_128
  }

  /** At every pair of weights whose ratio is that exponent, as at the pair (1, n). */
  lemma BinVanished(x: u128, n: u128, w: u128)
    requires 0 < x < ONE && BinVanishes(x, n) && w > 0 && n * w < TWO_POW_128
    ensures Bin.PowFrac(x, n * w, w) == Ok(0)
  {
    ScaledExponent(Bin.NegLog18(x), n, w);
    Bin.CastIsHarmlessIff(x, n * w, w);
  }

  lemma ScaledExponent(nl: int, n: int, w: int)
    requires w > 0 && n > 1
    ensures nl * (n * w) / w == nl * n && n * w > w
  {
    assert nl * (n * w) == nl * n * w;
    DivUnique(nl * (n * w), w, nl * n, 0);
    MulMono(2, n, w);
  }

  lemma DecVanished(x: u128, n: u128, w: u128)
    requires 0 < x < ONE && DecVanishes(x, n) && w > 0 && n * w < TWO_POW_128
    ensures Dec.PowFrac(x, n * w, w) == Ok(0)
  {
    ScaledExponent(Dec.NegLog(x), n, w);
    Dec.NegLogBound(x);
    DecimalShiftsOut(Dec.NegLog(x) * n);
  }

  /** From 2^-60 on the final shift leaves nothing. */
  lemma DecimalShiftsOut(y: nat)
    requires y >= 60 * Dec.LN2
    ensures Dec.Exp(y) == 0
  {
    DivMod(y, Dec.LN2);
    FloorAdjoint(60, y, Dec.LN2);
    var s := Dec.ExpState(y % Dec.LN2, Dec.EXP_TERMS - 1);
    Dec.ExpStateBound(y % Dec.LN2, Dec.EXP_TERMS - 1);
    BinFixed.SmallPowers();
    Pow2Mono(60, y / Dec.LN2);
    DivUnique(s.pos - s.neg, Pow2(y / Dec.LN2), 0, s.pos - s.neg);
  }

  /** The least exponent that takes a logarithm to `cutOff`. */
  function LeastExponent(nl: int, cutOff: int): (n: int)
    requires 0 < nl < cutOff
    ensures 1 < n <= cutOff && cutOff <= nl * n < 2 * cutOff
  {
    CeilAdjoint(cutOff, nl, 1);
    CeilAdjoint(cutOff, nl, cutOff);
    MulMono(1, nl, cutOff);
    assert nl * (CeilDiv(cutOff, nl) - 1) == nl * CeilDiv(cutOff, nl) - nl;
    CeilDiv(cutOff, nl)
  }

  /** Every proper fraction has one on the binary kernel. */
  lemma BinLeast(x: u128) returns (n: u128)
    requires 0 < x < ONE
    ensures BinVanishes(x, n)
  {
    Bin.NegLog18Bound(x);
    Bin.NegLog18PositiveIff(x);
    n := LeastExponent(Bin.NegLog18(x), 123 * BinFixed.LN2_62);
  }

  /** On the decimal one, every one but the largest. */
  lemma DecLeast(x: u128) returns (n: u128)
    requires 0 < x < ONE - 1
    ensures DecVanishes(x, n)
  {
    Dec.NegLogBound(x);
    DecimalPositiveIff(x);
    n := LeastExponent(Dec.NegLog(x), 200 * Dec.LN2);
  }

  // ------------------------------------------------------------ powers of reals

  lemma {:induction false} PowOfOne(n: nat)
    ensures Horner.Pow(1.0, n) == 1.0
  {
    if n > 0 {
      PowOfOne(n - 1);
    }
  }

  lemma PowOfZero(n: nat)
    requires n > 0
    ensures Horner.Pow(0.0, n) == 0.0
  {
    var before := Horner.Pow(0.0, n - 1);
    assert before * 0.0 == 0.0;
  }

  lemma {:induction false} PowGrows(a: real, b: real, n: nat)
    requires 0.0 <= a < b <= 1.0 && n > 0
    ensures Horner.Pow(a, n) < Horner.Pow(b, n)
  {
    if n == 1 {
      assert Horner.Pow(a, 0) == 1.0 == Horner.Pow(b, 0);
    } else {
      PowGrows(a, b, n - 1);
      PowPositive(b, n - 1);
      ProductGrows(Horner.Pow(a, n - 1), Horner.Pow(b, n - 1), a, b);
    }
  }

  lemma ProductGrows(p: real, q: real, a: real, b: real)
    requires p < q && 0.0 < q && 0.0 <= a < b
    ensures p * a < q * b
  {
    RealMono(a, p, q);
    StrictProduct(q, a, b);
  }

  lemma StrictProduct(q: real, a: real, b: real)
    requires 0.0 < q && a < b
    ensures q * a < q * b
  {
  }

  /** One power is below the other exactly when the base is. */
  lemma PowBelowIff(a: real, b: real, n: nat)
    requires 0.0 <= a <= 1.0 && 0.0 <= b <= 1.0 && n > 0
    ensures Horner.Pow(a, n) < Horner.Pow(b, n) <==> a < b
  {
    if a < b {
      PowGrows(a, b, n);
    } else if b < a {
      PowGrows(b, a, n);
    }
  }

  lemma BelowOne(x: real, n: nat)
    requires 0.0 <= x < 1.0 && n > 0
    ensures Horner.Pow(x, n) < 1.0
  {
    PowGrows(x, 1.0, n);
    PowOfOne(n);
  }

  // ------------------------------------------------ below and above the true power

  /** A stored fraction as a number. */
  function Fraction(v: u128): real {
    v as real / ONE as real
  }

  /** A power that comes out below the true one, `(x / ONE)^(num / den)`; both sides
      to the power of `den`. */
  predicate Below(answer: Answer, x: u128, num: u128, den: u128) {
    answer.Ok? && Horner.Pow(Fraction(answer.value), den) < Horner.Pow(Fraction(x), num)
  }

  predicate Above(answer: Answer, x: u128, num: u128, den: u128) {
    answer.Ok? && Horner.Pow(Fraction(answer.value), den) > Horner.Pow(Fraction(x), num)
  }

  /** Some reserve loses more than the true power of the price ratio asks for, once
      what a power leaves is rounded down. */
  ghost predicate LosesDust(answer: Answer, x: u128, num: u128, den: u128) {
    exists reserveToken: u128 :: reserveToken > 0 && LosesDustOf(answer, reserveToken, x, num, den)
  }

  predicate LosesDustOf(answer: Answer, reserveToken: u128, x: u128, num: u128, den: u128)
    requires reserveToken > 0
  {
    && answer.Ok? && answer.value <= ONE
    && Horner.Pow(1.0 - Paid(reserveToken, answer.value) as real / reserveToken as real, den) < Horner.Pow(Fraction(x), num)
  }

  /** The pool keeps the dust, whatever the reserve, if and only if the power in use
      is not below the true one: on both kernels, at every positive exponent. */
  lemma PoolKeepsTheDustIff(x: u128, num: u128, den: u128)
    requires x <= ONE && num > 0 && den > 0
    ensures LosesDust(Bin.PowFrac(x, num, den), x, num, den) <==> Below(Bin.PowFrac(x, num, den), x, num, den)
    ensures LosesDust(Dec.PowFrac(x, num, den), x, num, den) <==> Below(Dec.PowFrac(x, num, den), x, num, den)
  {
    Bin.PowFracIs(x, num, den);
    Dec.PowFracIs(x, num, den);
    KeptUnlessBelow(Bin.PowFrac(x, num, den), x, num, den);
    KeptUnlessBelow(Dec.PowFrac(x, num, den), x, num, den);
  }

  lemma KeptUnlessBelow(answer: Answer, x: u128, num: u128, den: u128)
    requires den > 0 && (answer.Ok? ==> answer.value <= ONE)
    ensures LosesDust(answer, x, num, den) <==> Below(answer, x, num, den)
  {
    if answer.Ok? {
      forall reserveToken: u128 | reserveToken > 0
        ensures LosesDustOf(answer, reserveToken, x, num, den) ==> Below(answer, x, num, den)
      {
        PaidLeaves(reserveToken, answer.value, den);
      }
      OneLeaves(answer.value);
      assert Below(answer, x, num, den) ==> LosesDustOf(answer, ONE, x, num, den);
    }
  }

  /** What is left of a reserve is never less than the power asks for, and of a
      reserve of exactly one it is just that. */
  lemma PaidLeaves(reserveToken: u128, p: u128, n: nat)
    requires reserveToken > 0 && p <= ONE && n > 0
    ensures Horner.Pow(1.0 - Paid(reserveToken, p) as real / reserveToken as real, n) >= Horner.Pow(Fraction(p), n)
  {
    var out := Paid(reserveToken, p);
    Bin.ShareBelow(reserveToken, ONE - p, ONE);
    ShareOfReserve(out as real, reserveToken as real);
    FloorAdjoint(out, reserveToken * (ONE - p), ONE);
    RealProduct(out, ONE);
    RealProduct(reserveToken, ONE - p);
    AtLeast(out as real, reserveToken as real, p as real);
    Proper(p);
    PowBelowIff(1.0 - out as real / reserveToken as real, Fraction(p), n);
  }

  lemma AtLeast(out: real, r: real, p: real)
    requires r > 0.0 && out * ONE as real <= r * (ONE as real - p)
    ensures 1.0 - out / r >= p / ONE as real
  {
    var a := out / r;
    assert a * r == out;
    var gap := ONE as real * (1.0 - a) - p;
    assert gap * r == r * (ONE as real - p) - out * ONE as real;
    NotNegative(gap, r);
  }

  lemma NotNegative(a: real, b: real)
    requires b > 0.0 && a * b >= 0.0
    ensures a >= 0.0
  {
  }

  lemma OneLeaves(p: u128)
    requires p <= ONE
    ensures Paid(ONE, p) == ONE - p && 1.0 - (ONE - p) as real / ONE as real == Fraction(p)
  {
    DivUnique(ONE * (ONE - p), ONE, ONE - p, 0);
  }

  ghost predicate BinFallsBelow(x: u128) {
    exists num: u128, den: u128 :: num > 0 && den > 0 && Below(Bin.PowFrac(x, num, den), x, num, den)
  }

  ghost predicate BinRisesAbove(x: u128) {
    exists num: u128, den: u128 :: num > 0 && den > 0 && Above(Bin.PowFrac(x, num, den), x, num, den)
  }

  ghost predicate DecFallsBelow(x: u128) {
    exists num: u128, den: u128 :: num > 0 && den > 0 && Below(Dec.PowFrac(x, num, den), x, num, den)
  }

  ghost predicate DecRisesAbove(x: u128) {
    exists num: u128, den: u128 :: num > 0 && den > 0 && Above(Dec.PowFrac(x, num, den), x, num, den)
  }

  lemma Proper(x: u128)
    requires x <= ONE
    ensures 0.0 <= Fraction(x) <= 1.0
    ensures x > 0 ==> Fraction(x) > 0.0
    ensures x < ONE ==> Fraction(x) < 1.0
  {
  }

  /** Zero is below, and one above, every true power of a proper fraction. */
  lemma EndsAreOff(x: u128, num: u128, den: u128)
    requires 0 < x < ONE && num > 0 && den > 0
    ensures Below(Ok(0), x, num, den) && Above(Ok(ONE), x, num, den)
  {
    Proper(x);
    PowPositive(Fraction(x), num);
    BelowOne(Fraction(x), num);
    PowOfZero(den);
    PowOfOne(den);
  }

  /** Zero and one have their own powers, and every base its first. */
  lemma ExactPowers(x: u128, num: u128, den: u128)
    requires num > 0 && den > 0
    ensures !Below(Ok(x), x, num, num) && !Above(Ok(x), x, num, num)
    ensures !Below(Ok(0), 0, num, den) && !Above(Ok(0), 0, num, den)
    ensures !Below(Ok(ONE), ONE, num, den) && !Above(Ok(ONE), ONE, num, den)
  {
    PowOfZero(num);
    PowOfZero(den);
    PowOfOne(num);
    PowOfOne(den);
  }

  /** Off the proper fractions the binary power is exact, or refused. */
  lemma BinExact(x: u128, num: u128, den: u128)
    requires (x == 0 || x >= ONE) && num > 0 && den > 0
    ensures !Below(Bin.PowFrac(x, num, den), x, num, den) && !Above(Bin.PowFrac(x, num, den), x, num, den)
  {
    ExactPowers(x, num, den);
    PowerOfOne(num, den);
  }

  lemma DecExact(x: u128, num: u128, den: u128)
    requires (x == 0 || x >= ONE) && num > 0 && den > 0
    ensures !Below(Dec.PowFrac(x, num, den), x, num, den) && !Above(Dec.PowFrac(x, num, den), x, num, den)
  {
    ExactPowers(x, num, den);
  }

  /** The binary power falls below the true one at some positive exponent exactly
      for the proper fractions. */
  lemma BinFallsBelowIff(x: u128)
    ensures BinFallsBelow(x) <==> 0 < x < ONE
  {
    if 0 < x < ONE {
      var n := BinLeast(x);
      BinVanished(x, n, 1);
      EndsAreOff(x, n, 1);
    } else {
      forall num: u128, den: u128 | num > 0 && den > 0
        ensures !Below(Bin.PowFrac(x, num, den), x, num, den)
      {
        BinExact(x, num, den);
      }
    }
  }

  /** It rises above the true one at some positive exponent exactly for them, too. */
  lemma BinRisesAboveIff(x: u128)
    ensures BinRisesAbove(x) <==> 0 < x < ONE
  {
    if 0 < x < ONE {
      var n := Bin.CastCanWrap(x);
      EndsAreOff(x, n, 1);
    } else {
      forall num: u128, den: u128 | num > 0 && den > 0
        ensures !Above(Bin.PowFrac(x, num, den), x, num, den)
      {
        BinExact(x, num, den);
      }
    }
  }

  /** The decimal power falls below exactly for the proper fractions but the largest. */
  lemma DecFallsBelowIff(x: u128)
    ensures DecFallsBelow(x) <==> 0 < x < ONE - 1
  {
    if 0 < x < ONE - 1 {
      var n := DecLeast(x);
      DecVanished(x, n, 1);
      EndsAreOff(x, n, 1);
    } else {
      forall num: u128, den: u128 | num > 0 && den > 0
        ensures !Below(Dec.PowFrac(x, num, den), x, num, den)
      {
        if x == ONE - 1 {
          LargestIsNotBelow(num, den);
        } else {
          DecExact(x, num, den);
        }
      }
    }
  }

  lemma LargestIsNotBelow(num: u128, den: u128)
    requires num > 0 && den > 0
    ensures !Below(Dec.PowFrac(ONE - 1, num, den), ONE - 1, num, den)
  {
    LargestFraction(num, den);
    PowOfOne(den);
    Proper(ONE - 1);
    PowPositive(Fraction(ONE - 1), num);
  }

  /** An exponent so small that the scaled logarithm is zero has the power one. */
  lemma SmallExponent(x: u128) returns (den: u128)
    requires 0 < x < ONE
    ensures den > 1 && Dec.PowFrac(x, 1, den) == Ok(ONE)
  {
    Dec.NegLogBound(x);
    var nl := Dec.NegLog(x);
    den := nl + 2;
    DivUnique(nl * 1, den, 0, nl);
    assert Dec.Exp(0) == ONE;
  }

  /** And it rises above the true one at some positive exponent exactly for all of
      the proper fractions. */
  lemma DecRisesAboveIff(x: u128)
    ensures DecRisesAbove(x) <==> 0 < x < ONE
  {
    if 0 < x < ONE {
      var den := SmallExponent(x);
      EndsAreOff(x, 1, den);
    } else {
      forall num: u128, den: u128 | num > 0 && den > 0
        ensures !Above(Dec.PowFrac(x, num, den), x, num, den)
      {
        DecExact(x, num, den);
      }
    }
  }

  // ------------------------------------------------------ above the exact payout

  /** The exact ratio the swap raises to a power; its base is this one rounded down. */
  function Ratio(reserveCollateral: u128, cIn: u128): real
    requires reserveCollateral > 0 && cIn > 0
  {
    reserveCollateral as real / (reserveCollateral + cIn) as real
  }

  /** A payout above the exact one, `reserve * (1 - ratio^(wCollateral / wToken))`:
      what it leaves of the reserve is less than that power, both to the power of `wToken`. */
  predicate Overpaid(answer: Answer, reserveToken: u128, reserveCollateral: u128, cIn: u128, wToken: u128, wCollateral: u128)
    requires reserveToken > 0 && reserveCollateral > 0 && cIn > 0
  {
    && answer.Ok?
    && Horner.Pow(1.0 - answer.value as real / reserveToken as real, wToken) < Horner.Pow(Ratio(reserveCollateral, cIn), wCollateral)
  }

  predicate BinOverpaysAt(reserveToken: u128, reserveCollateral: u128, cIn: u128, wToken: u128, wCollateral: u128)
    requires Priced(reserveToken, reserveCollateral, cIn, 1, 1)
  {
    Overpaid(Bin.WeightedBuy(reserveToken, reserveCollateral, cIn, wToken, wCollateral), reserveToken, reserveCollateral, cIn, wToken, wCollateral)
  }

  predicate DecOverpaysAt(reserveToken: u128, reserveCollateral: u128, cIn: u128, wToken: u128, wCollateral: u128)
    requires Priced(reserveToken, reserveCollateral, cIn, 1, 1)
  {
    Overpaid(Dec.WeightedBuy(reserveToken, reserveCollateral, cIn, wToken, wCollateral), reserveToken, reserveCollateral, cIn, wToken, wCollateral)
  }

  lemma RatioIsProper(reserveCollateral: u128, cIn: u128)
    requires reserveCollateral > 0 && cIn > 0
    ensures 0.0 < Ratio(reserveCollateral, cIn) <= 1.0
  {
    ProperQuotient(reserveCollateral as real, (reserveCollateral + cIn) as real);
  }

  lemma ProperQuotient(n: real, d: real)
    requires 0.0 < n <= d
    ensures 0.0 < n / d <= 1.0
  {
    assert n / d * d == n;
  }

  lemma PositiveProduct(a: real, b: real)
    requires a > 0.0 && b > 0.0
    ensures a * b > 0.0
  {
  }

  /** Paying the whole reserve is always too much: something of it is left, exactly. */
  lemma AllIsTooMuch(reserveToken: u128, reserveCollateral: u128, cIn: u128, wToken: u128, wCollateral: u128)
    requires reserveToken > 0 && reserveCollateral > 0 && cIn > 0 && wToken > 0
    ensures Overpaid(Ok(reserveToken), reserveToken, reserveCollateral, cIn, wToken, wCollateral)
  {
    RatioIsProper(reserveCollateral, cIn);
    PowPositive(Ratio(reserveCollateral, cIn), wCollateral);
    assert reserveToken as real / reserveToken as real == 1.0;
    PowOfZero(wToken);
  }

  lemma NothingIsNotTooMuch(reserveToken: u128, reserveCollateral: u128, cIn: u128, wToken: u128, wCollateral: u128)
    requires reserveToken > 0 && reserveCollateral > 0 && cIn > 0
    ensures !Overpaid(Ok(0), reserveToken, reserveCollateral, cIn, wToken, wCollateral)
  {
    RatioIsProper(reserveCollateral, cIn);
    PowPositive(Ratio(reserveCollateral, cIn), wCollateral);
    assert 0.0 / reserveToken as real == 0.0;
    PowOfOne(wToken);
  }

  // --------------------------------------------------------------- equal weights

  /** Between equal weights no power is left to take. */
  lemma EqualWeights(out: u128, reserveToken: u128, reserveCollateral: u128, cIn: u128, w: u128)
    requires 0 < reserveToken && out <= reserveToken && reserveCollateral > 0 && cIn > 0 && w > 0
    ensures Overpaid(Ok(out), reserveToken, reserveCollateral, cIn, w, w) <==> out * (reserveCollateral + cIn) > reserveToken * cIn
  {
    RatioIsProper(reserveCollateral, cIn);
    ShareOfReserve(out as real, reserveToken as real);
    PowBelowIff(1.0 - out as real / reserveToken as real, Ratio(reserveCollateral, cIn), w);
    LeftBelowRatio(out, reserveToken, reserveCollateral, cIn);
  }

  /** What is left of the reserve against the exact price ratio. */
  lemma LeftBelowRatio(out: u128, reserveToken: u128, reserveCollateral: u128, cIn: u128)
    requires 0 < reserveToken && reserveCollateral > 0 && cIn > 0
    ensures 1.0 - out as real / reserveToken as real < Ratio(reserveCollateral, cIn) <==> out * (reserveCollateral + cIn) > reserveToken * cIn
  {
    CrossMultiply(out as real, reserveToken as real, reserveCollateral as real, cIn as real);
    RealProduct(out, reserveCollateral + cIn);
    RealProduct(reserveToken, cIn);
  }

  lemma RealProduct(a: int, b: int)
    ensures (a * b) as real == a as real * b as real
  {
  }

  lemma ShareOfReserve(out: real, reserve: real)
    requires 0.0 <= out <= reserve && reserve > 0.0
    ensures 0.0 <= 1.0 - out / reserve <= 1.0
  {
    if out > 0.0 {
      ProperQuotient(out, reserve);
    }
  }

  lemma CrossMultiply(out: real, r: real, rc: real, cIn: real)
    requires r > 0.0 && rc > 0.0 && cIn > 0.0
    ensures 1.0 - out / r < rc / (rc + cIn) <==> out * (rc + cIn) > r * cIn
  {
    var d := rc + cIn;
    var a, b := out / r, rc / d;
    assert a * r == out && b * d == rc;
    var gap := b - (1.0 - a);
    Gap(gap, a, b, r, d);
    PositiveProduct(r, d);
    SameSign(gap, r * d);
    assert gap * (r * d) == out * d - r * cIn;
  }

  lemma Gap(gap: real, a: real, b: real, r: real, d: real)
    requires gap == b - (1.0 - a)
    ensures gap * (r * d) == b * d * r + a * r * d - r * d
  {
  }

  lemma SameSign(a: real, b: real)
    requires b > 0.0
    ensures a > 0.0 <==> a * b > 0.0
  {
  }

  /** At equal weights both swaps pay the share the floored price ratio leaves, and
      overpay exactly when that is above the share of the exact one. */
  lemma EqualWeightsOverpayIff(reserveToken: u128, reserveCollateral: u128, cIn: u128, w: u128)
    requires Priced(reserveToken, reserveCollateral, cIn, 1, 1) && w > 0
    ensures var out := reserveToken * (ONE - Base(reserveCollateral, cIn)) / ONE;
            && Bin.WeightedBuy(reserveToken, reserveCollateral, cIn, w, w) == Ok(out) == Dec.WeightedBuy(reserveToken, reserveCollateral, cIn, w, w)
            && (BinOverpaysAt(reserveToken, reserveCollateral, cIn, w, w) <==> out * (reserveCollateral + cIn) > reserveToken * cIn)
            && (DecOverpaysAt(reserveToken, reserveCollateral, cIn, w, w) <==> out * (reserveCollateral + cIn) > reserveToken * cIn)
  {
    Bin.WeightedBuyIs(reserveToken, reserveCollateral, cIn, w, w);
    Dec.WeightedBuyIs(reserveToken, reserveCollateral, cIn, w, w);
    var base := Base(reserveCollateral, cIn);
    assert Bin.PowFrac(base, w, w) == Ok(base) == Dec.PowFrac(base, w, w);
    EqualWeights(Bin.WeightedBuy(reserveToken, reserveCollateral, cIn, w, w).value, reserveToken, reserveCollateral, cIn, w);
  }

  // -------------------------------------------------------------- any weights

  /** Overpaid at every pair of weights whose ratio is the integer `n`. */
  ghost predicate BinOverpays(reserveToken: u128, reserveCollateral: u128, cIn: u128, n: u128)
    requires Priced(reserveToken, reserveCollateral, cIn, 1, 1)
  {
    forall w: u128 :: w > 0 && n * w < TWO_POW_128 ==> BinOverpaysAt(reserveToken, reserveCollateral, cIn, w, n * w)
  }

  ghost predicate DecOverpays(reserveToken: u128, reserveCollateral: u128, cIn: u128, n: u128)
    requires Priced(reserveToken, reserveCollateral, cIn, 1, 1)
  {
    forall w: u128 :: w > 0 && n * w < TWO_POW_128 ==> DecOverpaysAt(reserveToken, reserveCollateral, cIn, w, n * w)
  }

  /** Every buy the binary swap prices is overpaid at some ratio of weights, and at
      every pair of weights with that ratio; the price ratio may even round to zero. */
  lemma BinOverpaysAlways(reserveToken: u128, reserveCollateral: u128, cIn: u128) returns (n: u128)
    requires Priced(reserveToken, reserveCollateral, cIn, 1, 1)
    ensures n > 1 && BinOverpays(reserveToken, reserveCollateral, cIn, n)
  {
    var base := Base(reserveCollateral, cIn);
    n := 2;
    if base > 0 {
      n := BinLeast(base);
    }
    forall w: u128 | w > 0 && n * w < TWO_POW_128
      ensures BinOverpaysAt(reserveToken, reserveCollateral, cIn, w, n * w)
    {
      if base > 0 {
        BinVanished(base, n, w);
      }
      MulMono(1, n, w);
      BinaryPaysAll(reserveToken, reserveCollateral, cIn, w, n * w);
      AllIsTooMuch(reserveToken, reserveCollateral, cIn, w, n * w);
    }
  }

  lemma DecOverpaysThroughout(reserveToken: u128, reserveCollateral: u128, cIn: u128) returns (n: u128)
    requires Priced(reserveToken, reserveCollateral, cIn, 1, 1) && 0 < Base(reserveCollateral, cIn) < ONE - 1
    ensures n > 1 && DecOverpays(reserveToken, reserveCollateral, cIn, n)
  {
    var base := Base(reserveCollateral, cIn);
    n := DecLeast(base);
    forall w: u128 | w > 0 && n * w < TWO_POW_128
      ensures DecOverpaysAt(reserveToken, reserveCollateral, cIn, w, n * w)
    {
      DecVanished(base, n, w);
      MulMono(1, n, w);
      DecimalPaysAll(reserveToken, reserveCollateral, cIn, w, n * w);
      AllIsTooMuch(reserveToken, reserveCollateral, cIn, w, n * w);
    }
  }

  /** At the two ends the decimal swap refuses unequal weights, or pays nothing. */
  lemma DecPaysNothing(reserveToken: u128, reserveCollateral: u128, cIn: u128, wToken: u128, wCollateral: u128)
    requires Priced(reserveToken, reserveCollateral, cIn, wToken, wCollateral) && wToken != wCollateral
    requires Base(reserveCollateral, cIn) == 0 || Base(reserveCollateral, cIn) == ONE - 1
    ensures var r := Dec.WeightedBuy(reserveToken, reserveCollateral, cIn, wToken, wCollateral); r.Err? || r == Ok(0)
  {
    Dec.WeightedBuyIs(reserveToken, reserveCollateral, cIn, wToken, wCollateral);
    LargestFraction(wCollateral, wToken);
    DivUnique(reserveToken * 0, ONE, 0, 0);
  }

  lemma DecNeverOverpaysUnequal(reserveToken: u128, reserveCollateral: u128, cIn: u128, wToken: u128, wCollateral: u128)
    requires Priced(reserveToken, reserveCollateral, cIn, 1, 1) && wToken != wCollateral
    requires Base(reserveCollateral, cIn) == 0 || Base(reserveCollateral, cIn) == ONE - 1
    ensures !DecOverpaysAt(reserveToken, reserveCollateral, cIn, wToken, wCollateral)
  {
    if wToken > 0 && wCollateral > 0 {
      DecPaysNothing(reserveToken, reserveCollateral, cIn, wToken, wCollateral);
      NothingIsNotTooMuch(reserveToken, reserveCollateral, cIn, wToken, wCollateral);
    }
  }

  /** The decimal swap overpays a buy at some unequal weights exactly when its price
      ratio is positive and below the largest fraction, and then at every pair of
      weights with some integer ratio above one. */
  lemma DecOverpaysUnequalIff(reserveToken: u128, reserveCollateral: u128, cIn: u128)
    requires Priced(reserveToken, reserveCollateral, cIn, 1, 1)
    ensures (exists n: u128 :: n > 1 && DecOverpays(reserveToken, reserveCollateral, cIn, n))
       <==> 0 < Base(reserveCollateral, cIn) < ONE - 1
    ensures (exists wToken: u128, wCollateral: u128 :: wToken != wCollateral && DecOverpaysAt(reserveToken, reserveCollateral, cIn, wToken, wCollateral))
       <==> 0 < Base(reserveCollateral, cIn) < ONE - 1
  {
    if 0 < Base(reserveCollateral, cIn) < ONE - 1 {
      var n := DecOverpaysThroughout(reserveToken, reserveCollateral, cIn);
      assert n * 1 == n;
      assert DecOverpaysAt(reserveToken, reserveCollateral, cIn, 1, n);
    } else {
      forall wToken: u128, wCollateral: u128 | wToken != wCollateral
        ensures !DecOverpaysAt(reserveToken, reserveCollateral, cIn, wToken, wCollateral)
      {
        DecNeverOverpaysUnequal(reserveToken, reserveCollateral, cIn, wToken, wCollateral);
      }
      forall n: u128 | n > 1
        ensures !DecOverpays(reserveToken, reserveCollateral, cIn, n)
      {
        assert n * 1 == n;
        assert !DecOverpaysAt(reserveToken, reserveCollateral, cIn, 1, n);
      }
    }
  }

  ghost predicate DecOverpaysSomewhere(reserveToken: u128, reserveCollateral: u128, cIn: u128)
    requires Priced(reserveToken, reserveCollateral, cIn, 1, 1)
  {
    exists wToken: u128, wCollateral: u128 :: DecOverpaysAt(reserveToken, reserveCollateral, cIn, wToken, wCollateral)
  }

  /** Over all weights: it does exactly when the price ratio is below the largest
      fraction, or when it is that fraction and the reserve's share of one unit in
      1e18, all it then pays at equal weights, is above the exact amount. */
  lemma DecOverpaysIff(reserveToken: u128, reserveCollateral: u128, cIn: u128)
    requires Priced(reserveToken, reserveCollateral, cIn, 1, 1)
    ensures DecOverpaysSomewhere(reserveToken, reserveCollateral, cIn)
       <==> Base(reserveCollateral, cIn) < ONE - 1 || reserveToken / ONE * (reserveCollateral + cIn) > reserveToken * cIn
  {
    var base := Base(reserveCollateral, cIn);
    DecOverpaysUnequalIff(reserveToken, reserveCollateral, cIn);
    if base == 0 {
      EmptyRatioOverpays(reserveToken, reserveCollateral, cIn);
    } else if base == ONE - 1 {
      OnlyEqualWeightsOverpay(reserveToken, reserveCollateral, cIn);
    }
  }

  /** A price ratio that rounds to zero sells the whole reserve at equal weights. */
  lemma EmptyRatioOverpays(reserveToken: u128, reserveCollateral: u128, cIn: u128)
    requires Priced(reserveToken, reserveCollateral, cIn, 1, 1) && Base(reserveCollateral, cIn) == 0
    ensures DecOverpaysAt(reserveToken, reserveCollateral, cIn, 1, 1)
  {
    DecimalPaysAll(reserveToken, reserveCollateral, cIn, 1, 1);
    AllIsTooMuch(reserveToken, reserveCollateral, cIn, 1, 1);
  }

  lemma OnlyEqualWeightsOverpay(reserveToken: u128, reserveCollateral: u128, cIn: u128)
    requires Priced(reserveToken, reserveCollateral, cIn, 1, 1) && Base(reserveCollateral, cIn) == ONE - 1
    ensures DecOverpaysSomewhere(reserveToken, reserveCollateral, cIn) <==> reserveToken / ONE * (reserveCollateral + cIn) > reserveToken * cIn
  {
    EqualWeightsOverpayIff(reserveToken, reserveCollateral, cIn, 1);
    forall wToken: u128, wCollateral: u128 | DecOverpaysAt(reserveToken, reserveCollateral, cIn, wToken, wCollateral)
      ensures reserveToken / ONE * (reserveCollateral + cIn) > reserveToken * cIn
    {
      if wToken != wCollateral {
        DecNeverOverpaysUnequal(reserveToken, reserveCollateral, cIn, wToken, wCollateral);
      } else {
        EqualWeightsOverpayIff(reserveToken, reserveCollateral, cIn, wToken);
      }
    }
  }

  // ------------------------------------------------------------ monotonicity

  /** Two exponents over one denominator, the larger with the larger power. */
  predicate BinGrowsAt(x: u128, num: u128, num': u128, den: u128) {
    && den > 0 && num < num'
    && Bin.PowFrac(x, num, den).Ok? && Bin.PowFrac(x, num', den).Ok?
    && Bin.PowFrac(x, num, den).value < Bin.PowFrac(x, num', den).value
  }

  ghost predicate BinGrows(x: u128) {
    exists num: u128, num': u128, den: u128 :: BinGrowsAt(x, num, num', den)
  }

  /** The binary power is not monotone in the exponent for any base strictly between
      zero and one, and only there; there already the first power has a larger one
      after it, although it is the base itself. */
  lemma BinGrowsIff(x: u128)
    ensures BinGrows(x) <==> 0 < x < ONE
    ensures 0 < x < ONE ==> Bin.PowFrac(x, 1, 1) == Ok(x) && exists num: u128 :: BinGrowsAt(x, 1, num, 1)
  {
    if 0 < x < ONE {
      var num := Bin.CastCanWrap(x);
      assert BinGrowsAt(x, 1, num, 1);
    } else if x == ONE {
      forall num: u128, num': u128, den: u128
        ensures !BinGrowsAt(x, num, num', den)
      {
        if den > 0 && 0 < num < num' {
          PowerOfOne(num, den);
          PowerOfOne(num', den);
        }
      }
    }
  }

  predicate DecGrowsAt(x: u128, num: u128, num': u128, den: u128) {
    && den > 0 && num < num'
    && Dec.PowFrac(x, num, den).Ok? && Dec.PowFrac(x, num', den).Ok?
    && Dec.PowFrac(x, num, den).value < Dec.PowFrac(x, num', den).value
  }

  ghost predicate DecGrows(x: u128) {
    exists num: u128, num': u128, den: u128 :: DecGrowsAt(x, num, num', den)
  }

  /** Where the series ends after its fourth term. */
  predicate FourTerms(r: nat, t2: nat, t3: nat, t4: nat) {
    && r < Dec.LN2
    && t2 == r * r / ONE / 2 && t3 == t2 * r / ONE / 3 && t4 == t3 * r / ONE / 4
    && t4 * r / ONE / 5 == 0
  }

  lemma ShortSeries(r: nat, t2: nat, t3: nat, t4: nat)
    requires r > 0 && FourTerms(r, t2, t3, t4)
    ensures Dec.Exp(r) == ONE - r + t2 - t3 + t4
  {
    DivUnique(r, Dec.LN2, 0, r);
    DivUnique(ONE * r, ONE, r, 0);
    assert Dec.ExpState(r, 1) == Dec.Series(r, ONE, r);
    assert Dec.ExpState(r, 2) == Dec.Series(t2, ONE + t2, r);
    assert Dec.ExpState(r, 3) == Dec.Series(t3, ONE + t2, r + t3);
    assert Dec.ExpState(r, 4) == Dec.Series(t4, ONE + t2 + t4, r + t3);
    assert Dec.ExpState(r, 5).term == 0;
    Dec.ZeroStays(r, 5, Dec.EXP_TERMS - 1);
    assert Pow2(0) == 1;
  }

  /** Two places where one more unit of the scaled logarithm raises the exponential. */
  const STEP: u128 := 464_758_003_089_780
  const OTHER_STEP: u128 := 617_752_064_577_691

  lemma ExpSteps()
    ensures Dec.Exp(STEP) == 999_535_349_980_181_592 && Dec.Exp(STEP + 1) == 999_535_349_980_181_593
    ensures Dec.Exp(OTHER_STEP) == 999_382_438_704_944_176 && Dec.Exp(OTHER_STEP + 1) == 999_382_438_704_944_177
  {
    ShortSeries(464_758_003_089_780, 108_000_000_717, 16_731_288, 1_943);
    ShortSeries(464_758_003_089_781, 108_000_000_718, 16_731_288, 1_944);
    ShortSeries(617_752_064_577_691, 190_808_806_644, 39_290_844, 6_067);
    ShortSeries(617_752_064_577_692, 190_808_806_645, 39_290_844, 6_068);
  }

  /** With the logarithm itself as the denominator the scaled logarithm is the numerator. */
  lemma AnyScaledLogarithm(x: u128, y: u128)
    requires 0 < x < ONE - 1 && y != Dec.NegLog(x)
    ensures Dec.NegLog(x) < TWO_POW_128 && Dec.PowFrac(x, y, Dec.NegLog(x)) == Ok(Dec.Exp(y))
  {
    DecimalPositiveIff(x);
    Dec.NegLogBound(x);
    var nl := Dec.NegLog(x);
    DivUnique(nl * y, nl, y, 0);
    Dec.ExpBound(y);
  }

  lemma DecGrowsBelow(x: u128)
    requires 0 < x < ONE - 1
    ensures DecGrows(x)
  {
    DecimalPositiveIff(x);
    Dec.NegLogBound(x);
    ExpSteps();
    var nl: u128 := Dec.NegLog(x);
    var y := if nl == STEP || nl == STEP + 1 then OTHER_STEP else STEP;
    AnyScaledLogarithm(x, y);
    AnyScaledLogarithm(x, y + 1);
    assert DecGrowsAt(x, y, y + 1, nl);
  }

  /** The decimal power is not monotone in the exponent for any base strictly between
      zero and one, and only there. */
  lemma DecGrowsIff(x: u128)
    ensures DecGrows(x) <==> 0 < x < ONE
  {
    if 0 < x < ONE - 1 {
      DecGrowsBelow(x);
    } else if x == ONE - 1 {
      LargestFraction(1, 1);
      LargestFraction(2, 1);
      assert DecGrowsAt(x, 1, 2, 1);
    }
  }
}
