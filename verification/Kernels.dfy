/** The binary and the decimal kernel side by side. src/binfixed.rs calls its power
    identical in contract to that of src/weighted.rs: exactly where the two give the
    same verdict, and exactly where they end up at opposite ends. */
module Kernels {
  import opened Arithmetic
  import opened WideInt
  import opened Words
  import opened Wrappers
  import BinFixed
  import Horner
  import opened LogScales
  import Bin = BinPower
  import Dec = Weighted

  type Answer = Result<u128, CurveError>

  // ---------------------------------------------------------------- refusals

  /** Both answer, or both refuse with the same error. */
  predicate SameVerdict(a: Answer, b: Answer) {
    match (a, b)
    case (Ok(_), Ok(_)) => true
    case (Err(e), Err(f)) => e == f
    case _ => false
  }

  /** The scaled logarithm of a fraction no longer fits in 128 bits. */
  predicate BinOverflows(x: u128, num: u128, den: u128)
    requires 0 < x < ONE && den > 0
  {
    Bin.NegLog18(x) * num / den >= TWO_POW_128
  }

  predicate DecOverflows(x: u128, num: u128, den: u128)
    requires 0 < x < ONE && den > 0
  {
    Dec.NegLog(x) * num / den >= TWO_POW_128
  }

  /** On a proper fraction with a proper exponent each kernel refuses exactly its own overflow. */
  lemma ProperFraction(x: u128, num: u128, den: u128)
    requires 0 < x < ONE && 0 < num != den && den > 0
    ensures if BinOverflows(x, num, den) then Bin.PowFrac(x, num, den) == Err(Overflow) else Bin.PowFrac(x, num, den).Ok?
    ensures if DecOverflows(x, num, den) then Dec.PowFrac(x, num, den) == Err(Overflow) else Dec.PowFrac(x, num, den).Ok?
  {
    Bin.NegLog18Bound(x);
    Dec.NegLogBound(x);
  }

  /** The power of one is one on both. */
  lemma PowerOfOne(num: u128, den: u128)
    requires num > 0 && den > 0
    ensures Bin.PowFrac(ONE, num, den) == Ok(ONE) == Dec.PowFrac(ONE, num, den)
  {
    if num != den {
      Bin.NegLog18Bound(ONE);
      Bin.NegLog18PositiveIff(ONE);
      assert Bin.NegLog18(ONE) * num == 0;
      DivUnique(0, den, 0, 0);
      assert BinFixed.ExpNeg(0) == Horner.ONE62;
    }
  }

  /** Exactly when the two powers refuse together. */
  lemma PowersRefuseTogetherIff(x: u128, num: u128, den: u128)
    ensures (Bin.PowFrac(x, num, den).Err? <==> Dec.PowFrac(x, num, den).Err?) <==>
              || den == 0
              || (num == 0 && (x == 0 || x > ONE))
              || (x == 0 && num == den)
              || (x > ONE && 0 < num != den)
              || (0 < x <= ONE && num > 0 && (x == ONE || num == den))
              || (0 < x < ONE && 0 < num != den && (BinOverflows(x, num, den) <==> DecOverflows(x, num, den)))
  {
    PowersSameVerdictIff(x, num, den);
  }

  /** Exactly when they also refuse with the same error: not for a zero exponent above one. */
  lemma PowersSameVerdictIff(x: u128, num: u128, den: u128)
    ensures SameVerdict(Bin.PowFrac(x, num, den), Dec.PowFrac(x, num, den)) <==>
              || den == 0
              || (num == 0 && x == 0)
              || (x == 0 && num == den)
              || (x > ONE && 0 < num != den)
              || (0 < x <= ONE && num > 0 && (x == ONE || num == den))
              || (0 < x < ONE && 0 < num != den && (BinOverflows(x, num, den) <==> DecOverflows(x, num, den)))
    ensures den > 0 && num == 0 ==> Bin.PowFrac(x, num, den) == Err(ZeroAmount)
    ensures den > 0 && num == 0 && 0 < x <= ONE ==> Dec.PowFrac(x, num, den) == Ok(ONE)
    ensures den > 0 && num == 0 && x > ONE ==> Dec.PowFrac(x, num, den) == Err(QuantityAtOrAboveReserve)
    ensures den > 0 && x == 0 && 0 < num != den ==> Bin.PowFrac(x, num, den) == Ok(0) && Dec.PowFrac(x, num, den) == Err(ZeroAmount)
    ensures den > 0 && x > ONE && num == den ==> Bin.PowFrac(x, num, den) == Err(QuantityAtOrAboveReserve) && Dec.PowFrac(x, num, den) == Ok(x)
    ensures den > 0 && num > 0 && 0 < x <= ONE && (x == ONE || num == den) ==> Bin.PowFrac(x, num, den) == Dec.PowFrac(x, num, den)
  {
    if den > 0 && num > 0 && x == ONE {
      PowerOfOne(num, den);
    } else if den > 0 && 0 < x < ONE && 0 < num != den {
      ProperFraction(x, num, den);
    } else if den > 0 && 0 < x < ONE && num == 0 {
      Dec.NegLogBound(x);
      assert Dec.NegLog(x) * 0 == 0;
      DivUnique(0, den, 0, 0);
    }
  }

  // --------------------------------------------------------- large exponents

  /** An exponent that takes the binary logarithm to 2^127 or 2^128 leaves the
      decimal one inside its word, and far past the last exponent with a power above zero. */
  lemma DecimalStaysInside(nl: int, dl: int, target: int, num: int)
    requires Comparable(nl, dl) && nl <= 122 * BinFixed.LN2_62
    requires TWO_POW_127 <= target <= TWO_POW_128 && nl * (num - 1) < target <= nl * num && num > 1
    ensures 128 * Dec.LN2 <= dl * num < TWO_POW_128
  {
    MulMono(10 * dl, 9 * nl, num - 1);
    assert 10 * dl * (num - 1) == 10 * (dl * num) - 10 * dl;
    assert 9 * nl * (num - 1) == 9 * (nl * (num - 1));
    MulMono(nl, 600 * dl, num);
    assert 600 * dl * num == 600 * (dl * num);
  }

  lemma DecimalVanishes(x: u128, num: u128)
    requires 0 < x < ONE && num > 1 && 128 * Dec.LN2 <= Dec.NegLog(x) * num < TWO_POW_128
    ensures Dec.PowFrac(x, num, 1) == Ok(0)
  {
    Dec.NegLogBound(x);
    var y := Dec.NegLog(x) * num;
    DivUnique(y, 1, y, 0);
    FloorAdjoint(128, y, Dec.LN2);
  }

  /** The least exponent that takes the binary logarithm to `target`. */
  lemma Witness(x: u128, target: int) returns (num: u128)
    requires 0 < x < ONE - 1 && TWO_POW_127 <= target <= TWO_POW_128
    ensures num > 1 && target <= Bin.NegLog18(x) * num < target + Bin.NegLog18(x)
    ensures Bin.NegLog18(x) <= 122 * BinFixed.LN2_62
    ensures Dec.PowFrac(x, num, 1) == Ok(0)
  {
    Compare(x);
    Bin.NegLog18Bound(x);
    var nl, dl := Bin.NegLog18(x), Dec.NegLog(x);
    var n := Bin.WrapExponent(nl, target);
    DecimalStaysInside(nl, dl, target, n);
    MulMono(1, dl, n);
    num := n;
    DecimalVanishes(x, num);
  }

  /** The decimal power is zero and the binary one is not: one, or refused. */
  predicate OppositeEnds(x: u128, num: u128, den: u128) {
    Bin.PowFrac(x, num, den) == Ok(ONE) && Dec.PowFrac(x, num, den) == Ok(0)
  }

  predicate OneRefuses(x: u128, num: u128, den: u128) {
    Bin.PowFrac(x, num, den) == Err(Overflow) && Dec.PowFrac(x, num, den) == Ok(0)
  }

  /** The decimal power of the largest fraction is one at every exponent but the first. */
  lemma LargestFraction(num: u128, den: u128)
    requires den > 0
    ensures Dec.PowFrac(ONE - 1, num, den) == Ok(if num == den then ONE - 1 else ONE)
  {
    DecimalPositiveIff(ONE - 1);
    Dec.NegLogBound(ONE - 1);
    assert Dec.NegLog(ONE - 1) * num == 0;
    DivUnique(0, den, 0, 0);
  }

  /** The decimal power vanishes where the binary one does not only on fractions
      with a logarithm. */
  lemma VanishesOnlyWithALogarithm(x: u128, num: u128, den: u128)
    requires Dec.PowFrac(x, num, den) == Ok(0) && Bin.PowFrac(x, num, den) != Ok(0)
    ensures 0 < x < ONE - 1
  {
    if den > 0 {
      LargestFraction(num, den);
    }
  }

  /** Some exponent has the power one on the binary kernel and zero on the decimal
      one exactly for the fractions below the largest. */
  lemma OppositeEndsIff(x: u128)
    ensures (exists num: u128, den: u128 :: OppositeEnds(x, num, den)) <==> 0 < x < ONE - 1
  {
    if 0 < x < ONE - 1 {
      var num := Witness(x, TWO_POW_127);
      BinaryWraps(x, num);
      assert OppositeEnds(x, num, 1);
    }
    forall num: u128, den: u128 | OppositeEnds(x, num, den)
      ensures 0 < x < ONE - 1
    {
      VanishesOnlyWithALogarithm(x, num, den);
    }
  }

  /** So has some exponent that only the binary kernel refuses. */
  lemma OneRefusesIff(x: u128)
    ensures (exists num: u128, den: u128 :: OneRefuses(x, num, den)) <==> 0 < x < ONE - 1
  {
    if 0 < x < ONE - 1 {
      var num := Witness(x, TWO_POW_128);
      BinaryRefuses(x, num);
      assert OneRefuses(x, num, 1);
    }
    forall num: u128, den: u128 | OneRefuses(x, num, den)
      ensures 0 < x < ONE - 1
    {
      VanishesOnlyWithALogarithm(x, num, den);
    }
  }

  lemma BinaryWraps(x: u128, num: u128)
    requires 0 < x < ONE && num > 1 && TWO_POW_127 <= Bin.NegLog18(x) * num < TWO_POW_128
    ensures Bin.PowFrac(x, num, 1) == Ok(ONE)
  {
    var y := Bin.NegLog18(x) * num;
    DivUnique(y, 1, y, 0);
    Bin.CastIsHarmlessIff(x, num, 1);
  }

  lemma BinaryRefuses(x: u128, num: u128)
    requires 0 < x < ONE && num > 1 && Bin.NegLog18(x) * num >= TWO_POW_128
    ensures Bin.PowFrac(x, num, 1) == Err(Overflow)
  {
    var y := Bin.NegLog18(x) * num;
    DivUnique(y, 1, y, 0);
    ProperFraction(x, num, 1);
  }

  /** What both swaps check before they price. */
  predicate Priced(reserveToken: u128, reserveCollateral: u128, cIn: u128, wToken: u128, wCollateral: u128) {
    && cIn > 0 && reserveToken > 0 && reserveCollateral > 0 && wToken > 0 && wCollateral > 0
    && reserveCollateral + cIn < TWO_POW_128
  }

  function Base(reserveCollateral: u128, cIn: u128): (base: u128)
    requires reserveCollateral > 0 && cIn > 0
    ensures base < ONE
  {
    Bin.BaseIs(reserveCollateral, cIn);
    ONE * reserveCollateral / (reserveCollateral + cIn)
  }

  /** Exactly when the two swaps give the same verdict: never when the price ratio
      rounds to zero at unequal weights, nor when one logarithm fits and one does not. */
  lemma SwapsSameVerdictIff(reserveToken: u128, reserveCollateral: u128, cIn: u128, wToken: u128, wCollateral: u128)
    ensures SameVerdict(Bin.WeightedBuy(reserveToken, reserveCollateral, cIn, wToken, wCollateral),
                        Dec.WeightedBuy(reserveToken, reserveCollateral, cIn, wToken, wCollateral)) <==>
              || !Priced(reserveToken, reserveCollateral, cIn, wToken, wCollateral)
              || wToken == wCollateral
              || var base := Base(reserveCollateral, cIn);
                 base > 0 && (BinOverflows(base, wCollateral, wToken) <==> DecOverflows(base, wCollateral, wToken))
  {
    if Priced(reserveToken, reserveCollateral, cIn, wToken, wCollateral) {
      Bin.WeightedBuyIs(reserveToken, reserveCollateral, cIn, wToken, wCollateral);
      Dec.WeightedBuyIs(reserveToken, reserveCollateral, cIn, wToken, wCollateral);
      PowersSameVerdictIff(Base(reserveCollateral, cIn), wCollateral, wToken);
    }
  }

  /** A positive reserve is paid out whole by a zero power only. */
  lemma PaidWholeIff(reserveToken: u128, p: u128)
    requires 0 < reserveToken && p <= ONE
    ensures reserveToken * (ONE - p) / ONE == reserveToken <==> p == 0
  {
    if p == 0 {
      DivUnique(reserveToken * ONE, ONE, reserveToken, 0);
    } else {
      Bin.ShareBelow(reserveToken, ONE - p, ONE);
    }
  }

  lemma BinaryPaysAll(reserveToken: u128, reserveCollateral: u128, cIn: u128, wToken: u128, wCollateral: u128)
    requires Priced(reserveToken, reserveCollateral, cIn, wToken, wCollateral)
    requires Bin.PowFrac(Base(reserveCollateral, cIn), wCollateral, wToken) == Ok(0)
    ensures Bin.WeightedBuy(reserveToken, reserveCollateral, cIn, wToken, wCollateral) == Ok(reserveToken)
  {
    Bin.BaseIs(reserveCollateral, cIn);
    Bin.PayoutIs(reserveToken, 0);
    DivUnique(reserveToken * ONE, ONE, reserveToken, 0);
  }

  lemma DecimalPaysAll(reserveToken: u128, reserveCollateral: u128, cIn: u128, wToken: u128, wCollateral: u128)
    requires Priced(reserveToken, reserveCollateral, cIn, wToken, wCollateral)
    requires Dec.PowFrac(Base(reserveCollateral, cIn), wCollateral, wToken) == Ok(0)
    ensures Dec.WeightedBuy(reserveToken, reserveCollateral, cIn, wToken, wCollateral) == Ok(reserveToken)
  {
    Bin.BaseIs(reserveCollateral, cIn);
    Bin.PayoutIs(reserveToken, 0);
    DivUnique(reserveToken * ONE, ONE, reserveToken, 0);
  }

  /** The binary swap pays nothing, or refuses, where the decimal one pays the whole reserve. */
  predicate SwapsOpposite(reserveToken: u128, reserveCollateral: u128, cIn: u128, wToken: u128, wCollateral: u128) {
    && Bin.WeightedBuy(reserveToken, reserveCollateral, cIn, wToken, wCollateral) == Ok(0)
    && Dec.WeightedBuy(reserveToken, reserveCollateral, cIn, wToken, wCollateral) == Ok(reserveToken)
  }

  predicate OneSwapRefuses(reserveToken: u128, reserveCollateral: u128, cIn: u128, wToken: u128, wCollateral: u128) {
    && Bin.WeightedBuy(reserveToken, reserveCollateral, cIn, wToken, wCollateral) == Err(Overflow)
    && Dec.WeightedBuy(reserveToken, reserveCollateral, cIn, wToken, wCollateral) == Ok(reserveToken)
  }

  /** The decimal swap pays the whole reserve and the binary one does not only at a
      price ratio with a logarithm. */
  lemma PaidWholeOnlyWithALogarithm(reserveToken: u128, reserveCollateral: u128, cIn: u128, wToken: u128, wCollateral: u128)
    requires reserveToken > 0 && reserveCollateral > 0 && cIn > 0
    requires Dec.WeightedBuy(reserveToken, reserveCollateral, cIn, wToken, wCollateral) == Ok(reserveToken)
    requires Bin.WeightedBuy(reserveToken, reserveCollateral, cIn, wToken, wCollateral) != Ok(reserveToken)
    ensures 0 < Base(reserveCollateral, cIn) < ONE - 1
  {
    var base := Base(reserveCollateral, cIn);
    Dec.WeightedBuyIs(reserveToken, reserveCollateral, cIn, wToken, wCollateral);
    var p := Dec.PowFrac(base, wCollateral, wToken);
    Dec.PowFracIs(base, wCollateral, wToken);
    PaidWholeIff(reserveToken, p.value);
    if Bin.PowFrac(base, wCollateral, wToken) == Ok(0) {
      BinaryPaysAll(reserveToken, reserveCollateral, cIn, wToken, wCollateral);
    } else {
      VanishesOnlyWithALogarithm(base, wCollateral, wToken);
    }
  }

  /** On a buy both swaps price, some weights make the binary swap pay nothing and
      the decimal one the whole reserve exactly when the price ratio is positive and
      below the largest fraction. */
  lemma SwapsOppositeIff(reserveToken: u128, reserveCollateral: u128, cIn: u128)
    requires Priced(reserveToken, reserveCollateral, cIn, 1, 1)
    ensures (exists wToken: u128, wCollateral: u128 :: SwapsOpposite(reserveToken, reserveCollateral, cIn, wToken, wCollateral))
       <==> 0 < Base(reserveCollateral, cIn) < ONE - 1
  {
    if 0 < Base(reserveCollateral, cIn) < ONE - 1 {
      var weight := SwapsOppositeAt(reserveToken, reserveCollateral, cIn);
    }
    forall wToken: u128, wCollateral: u128 | SwapsOpposite(reserveToken, reserveCollateral, cIn, wToken, wCollateral)
      ensures 0 < Base(reserveCollateral, cIn) < ONE - 1
    {
      PaidWholeOnlyWithALogarithm(reserveToken, reserveCollateral, cIn, wToken, wCollateral);
    }
  }

  lemma SwapsOppositeAt(reserveToken: u128, reserveCollateral: u128, cIn: u128) returns (weight: u128)
    requires Priced(reserveToken, reserveCollateral, cIn, 1, 1) && 0 < Base(reserveCollateral, cIn) < ONE - 1
    ensures SwapsOpposite(reserveToken, reserveCollateral, cIn, 1, weight)
  {
    weight := Witness(Base(reserveCollateral, cIn), TWO_POW_127);
    BinaryWraps(Base(reserveCollateral, cIn), weight);
    DecimalPaysAll(reserveToken, reserveCollateral, cIn, 1, weight);
    Bin.WeightedBuyIs(reserveToken, reserveCollateral, cIn, 1, weight);
    DivUnique(reserveToken * 0, ONE, 0, 0);
  }

  /** And exactly then some weights make the binary swap refuse what the decimal one
      pays whole. */
  lemma OneSwapRefusesIff(reserveToken: u128, reserveCollateral: u128, cIn: u128)
    requires Priced(reserveToken, reserveCollateral, cIn, 1, 1)
    ensures (exists wToken: u128, wCollateral: u128 :: OneSwapRefuses(reserveToken, reserveCollateral, cIn, wToken, wCollateral))
       <==> 0 < Base(reserveCollateral, cIn) < ONE - 1
  {
    if 0 < Base(reserveCollateral, cIn) < ONE - 1 {
      var weight := OneSwapRefusesAt(reserveToken, reserveCollateral, cIn);
    }
    forall wToken: u128, wCollateral: u128 | OneSwapRefuses(reserveToken, reserveCollateral, cIn, wToken, wCollateral)
      ensures 0 < Base(reserveCollateral, cIn) < ONE - 1
    {
      PaidWholeOnlyWithALogarithm(reserveToken, reserveCollateral, cIn, wToken, wCollateral);
    }
  }

  lemma OneSwapRefusesAt(reserveToken: u128, reserveCollateral: u128, cIn: u128) returns (weight: u128)
    requires Priced(reserveToken, reserveCollateral, cIn, 1, 1) && 0 < Base(reserveCollateral, cIn) < ONE - 1
    ensures OneSwapRefuses(reserveToken, reserveCollateral, cIn, 1, weight)
  {
    weight := Witness(Base(reserveCollateral, cIn), TWO_POW_128);
    BinaryRefuses(Base(reserveCollateral, cIn), weight);
    DecimalPaysAll(reserveToken, reserveCollateral, cIn, 1, weight);
    Bin.WeightedBuyIs(reserveToken, reserveCollateral, cIn, 1, weight);
  }
}
