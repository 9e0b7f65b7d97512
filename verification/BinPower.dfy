/** The fractional power and the weighted swap of src/binfixed.rs, on the binary kernel. */
module BinPower {
  import opened Arithmetic
  import opened BinFixed
  import opened Horner
  import opened WideInt
  import opened Words
  import opened Wrappers

  /** `as i128` on a u128: two's complement. */
  function AsI128(v: u128): i128 {
    if v < TWO_POW_127 then v else v - TWO_POW_128
  }

  /** -ln x at scale 2^62, for x at scale 1e18 in (0, 1]: normalised before the scale changes. */
  function NegLog18(x: int): int
    requires 0 < x <= ONE18
  {
    var (xx, j) := Normalised(x, ONE18 / 2);
    MantissaBound(x);
    j * LN2_62 + NegLog62(xx * ONE62 / ONE18)
  }

  /** The mantissa handed to the logarithm uses all 62 bits and is never above 1. */
  lemma MantissaBound(x: int)
    requires 0 < x <= ONE18
    ensures var (xx, j) := Normalised(x, ONE18 / 2);
            && ONE18 / 2 <= xx <= ONE18 && j <= 59
            && ONE62 / 2 <= xx * ONE62 / ONE18 <= ONE62
  {
    SmallPowers();
    assert Pow2(60) == 2 * Pow2(59);
    ShiftCount(x, ONE18 / 2, 59);
  }

  lemma NegLog18Bound(x: int)
    requires 0 < x <= ONE18
    ensures 0 <= NegLog18(x) <= 122 * LN2_62
    ensures NegLog18(x) >= Normalised(x, ONE18 / 2).1 * LN2_62
  {
    MantissaBound(x);
    NegLogBound(Normalised(x, ONE18 / 2).0 * ONE62 / ONE18);
  }

  /** The logarithm sees every base below one, down to the last unit. */
  lemma NegLog18PositiveIff(x: int)
    requires 0 < x <= ONE18
    ensures NegLog18(x) > 0 <==> x < ONE18
  {
    MantissaBound(x);
    var (xx, j) := Normalised(x, ONE18 / 2);
    NegLogBound(xx * ONE62 / ONE18);
    if x == ONE18 {
      assert ONE18 * ONE62 / ONE18 == ONE62;
      assert NegLog62(ONE62) == 0 by {
        assert Ratio(ONE62) == 0;
      }
    } else if j == 0 {
      FloorAdjoint(ONE62 - 1, xx * ONE62, ONE18);
      assert (ONE62 - 1) * ONE18 > (ONE18 - 1) * ONE62;
      MulMono(xx, ONE18 - 1, ONE62);
    }
  }

  /** x^(num/den) at scale 1e18. */
  function PowFrac(x: u128, num: u128, den: u128): Result<u128, CurveError>
  {
    if den == 0 || num == 0 then Err(ZeroAmount)
    else if x == 0 then Ok(0)
    else if x > ONE18 then Err(QuantityAtOrAboveReserve)
    else if num == den then Ok(x)
    else
      NegLog18Bound(x);
      match FloorQuotient(NegLog18(x), num, den)
      case Err(e) => Err(e)
      case Ok(y) =>
        ExpNegBound(AsI128(y));
        Ok(ExpNeg(AsI128(y)) * ONE18 / ONE62)
  }

  /** `pow_frac` as it runs. */
  method RunPowFrac(x: u128, num: u128, den: u128) returns (r: Result<u128, CurveError>)
    ensures r == PowFrac(x, num, den)
  {
    if den == 0 || num == 0 {
      return Err(ZeroAmount);
    }
    if x == 0 {
      return Ok(0);
    }
    if x > ONE18 {
      return Err(QuantityAtOrAboveReserve);
    }
    if num == den {
      return Ok(x);
    }
    NegLog18Bound(x);
    var nl := NegLn18(x);
    var scaled :- MulDivFloor(nl, num, den);
    var e := ExpNeg62(AsI128(scaled));
    var product: i128 := e * ONE18;
    return Ok(product / ONE62);
  }

  /** The logarithm half of `pow_frac`. The conversion and the logarithm can
      refuse in general and m0 could be zero; here none of that happens. */
  method NegLn18(x: u128) returns (nl: i128)
    requires 0 < x <= ONE18
    ensures nl == NegLog18(x)
  {
    MantissaBound(x);
    NegLog18Bound(x);
    var xx, j := DoubleUntil(x, ONE18 / 2);
    var q := MulDivFloor(xx, ONE62, ONE18);
    assert q.Ok? && 0 < q.value <= ONE62;
    var low := NegLn62(q.value);
    nl := j * LN2_62 + low.value;
  }

  // ------------------------------------------------------------- the contract

  /** The power of a fraction is a fraction, on every input that is not refused;
      and what is refused is a zero exponent part, a base above one, and an exponent
      that takes the logarithm past 128 bits. */
  lemma PowFracIs(x: u128, num: u128, den: u128)
    ensures PowFrac(x, num, den).Ok? ==> PowFrac(x, num, den).value <= ONE18
    ensures PowFrac(x, num, den).Err? <==>
              || num == 0 || den == 0 || x > ONE18
              || (x > 0 && num != den && NegLog18(x) * num / den >= TWO_POW_128)
  {
    if num > 0 && den > 0 && 0 < x <= ONE18 && num != den {
      NegLog18Bound(x);
      var y := FloorQuotient(NegLog18(x), num, den);
      if y.Ok? {
        ExpNegBound(AsI128(y.value));
      }
    }
  }

  /** The cast that takes the exponent to a signed word is harmless exactly below
      2^127: from there on the power, which has long been zero, is one again. */
  lemma CastIsHarmlessIff(x: u128, num: u128, den: u128)
    requires 0 < x <= ONE18 && num > 0 && den > 0 && num != den
    requires 100 * LN2_62 <= NegLog18(x) * num / den < TWO_POW_128
    ensures PowFrac(x, num, den) == if NegLog18(x) * num / den < TWO_POW_127 then Ok(0) else Ok(ONE18)
    ensures PowFrac(x, num, den) == Ok(0) <==> NegLog18(x) * num / den < TWO_POW_127
  {
    NegLog18Bound(x);
  }

  /** Some exponent takes the logarithm into the range the cast turns negative. */
  ghost predicate CastWraps(x: u128)
    requires 0 < x <= ONE18
  {
    exists num: u128 :: num > 1 && TWO_POW_127 <= NegLog18(x) * num < TWO_POW_128
  }

  /** That happens to every base strictly between zero and one, and to no other. */
  lemma CastWrapsIff(x: u128)
    requires 0 < x <= ONE18
    ensures CastWraps(x) <==> x < ONE18
  {
    NegLog18PositiveIff(x);
    if x < ONE18 {
      var num := CastCanWrap(x);
    }
  }

  /** The least integer exponent that takes the logarithm to a given power of two. */
  function WrapExponent(nl: int, target: int): (num: int)
    requires 0 < nl <= 122 * LN2_62 && TWO_POW_127 <= target <= TWO_POW_128
    ensures 1 < num <= TWO_POW_128
    ensures nl * (num - 1) < target <= nl * num < target + nl
  {
    CeilAdjoint(target, nl, 1);
    CeilAdjoint(target, nl, target);
    MulMono(1, nl, target);
    assert nl * (CeilDiv(target, nl) - 1) == nl * CeilDiv(target, nl) - nl;
    CeilDiv(target, nl)
  }

  /** An integer exponent above one whose power comes out as one. */
  lemma CastCanWrap(x: u128) returns (num: u128)
    requires 0 < x < ONE18
    ensures num > 1 && PowFrac(x, num, 1) == Ok(ONE18)
    ensures TWO_POW_127 <= NegLog18(x) * num < TWO_POW_128
  {
    NegLog18Bound(x);
    NegLog18PositiveIff(x);
    var nl := NegLog18(x);
    CeilAdjoint(TWO_POW_127, nl, TWO_POW_127);
    MulMono(1, nl, TWO_POW_127);
    num := WrapExponent(nl, TWO_POW_127);
    DivUnique(nl * num, 1, nl * num, 0);
    CastIsHarmlessIff(x, num, 1);
  }

  // ------------------------------------------------------------------ the swap

  function WeightedBuy(reserveToken: u128, reserveCollateral: u128, cIn: u128, wToken: u128, wCollateral: u128)
    : Result<u128, CurveError>
  {
    if cIn == 0 || reserveToken == 0 || reserveCollateral == 0 then Err(ZeroAmount)
    else if wToken == 0 || wCollateral == 0 then Err(ZeroAmount)
    else if reserveCollateral + cIn >= TWO_POW_128 then Err(Overflow)
    else
      match FloorQuotient(reserveCollateral, ONE18, reserveCollateral + cIn)
      case Err(e) => Err(e)
      case Ok(base) =>
        match PowFrac(base, wCollateral, wToken)
        case Err(e) => Err(e)
        case Ok(p) =>
          if p > ONE18 then Err(Overflow)
          else
            match FloorQuotient(reserveToken, ONE18 - p, ONE18)
            case Err(e) => Err(e)
            case Ok(out) => if out > reserveToken then Err(ExceedsSaleReserve) else Ok(out)
  }

  /** A share of the whole that is a fraction below one. */
  lemma ShareBelow(a: int, part: int, whole: int)
    requires 0 <= a && 0 <= part <= whole && whole > 0
    ensures 0 <= a * part / whole <= a
    ensures part < whole && a > 0 ==> a * part / whole < a
  {
    MulMono(0, part, a);
    MulMono(part, whole, a);
    FloorAdjoint(0, a * part, whole);
    FloorAdjoint(a, a * part, whole);
    FloorAdjoint(a + 1, a * part, whole);
    assert (a + 1) * whole == a * whole + whole;
    if part < whole {
      MulMono(part + 1, whole, a);
      assert a * (part + 1) == a * part + a;
    }
  }

  lemma PowFracFailsByOverflow(x: u128, num: u128, den: u128)
    requires x <= ONE18 && num > 0 && den > 0 && PowFrac(x, num, den).Err?
    ensures x > 0 && num != den && PowFrac(x, num, den) == Err(Overflow)
  {
  }

  /** The price ratio after the input: always defined and below one. */
  lemma BaseIs(reserveCollateral: u128, cIn: u128)
    requires reserveCollateral > 0 && cIn > 0
    ensures var base := ONE18 * reserveCollateral / (reserveCollateral + cIn);
            0 <= base < ONE18 && FloorQuotient(reserveCollateral, ONE18, reserveCollateral + cIn) == Ok(base)
  {
    ShareBelow(ONE18, reserveCollateral, reserveCollateral + cIn);
    assert ONE18 * reserveCollateral == reserveCollateral * ONE18;
  }

  /** What a power of a fraction leaves of the reserve: always defined and within it. */
  lemma PayoutIs(reserveToken: u128, p: u128)
    requires p <= ONE18
    ensures var out := reserveToken * (ONE18 - p) / ONE18;
            0 <= out <= reserveToken && FloorQuotient(reserveToken, ONE18 - p, ONE18) == Ok(out)
  {
    ShareBelow(reserveToken, ONE18 - p, ONE18);
  }

  /** The swap never pays more than the reserve; past its input checks it can only
      be refused where the power itself is, so neither refusal after the power is
      ever reached. */
  lemma WeightedBuyIs(reserveToken: u128, reserveCollateral: u128, cIn: u128, wToken: u128, wCollateral: u128)
    ensures var r := WeightedBuy(reserveToken, reserveCollateral, cIn, wToken, wCollateral);
            && (r.Ok? ==> r.value <= reserveToken)
            && (cIn == 0 || reserveToken == 0 || reserveCollateral == 0 || wToken == 0 || wCollateral == 0 ==> r == Err(ZeroAmount))
            && (reserveCollateral + cIn >= TWO_POW_128 && r.Err? && r.error != ZeroAmount ==> r == Err(Overflow))
            && (reserveCollateral + cIn >= TWO_POW_128 ==> r.Err?)
            && (cIn > 0 && reserveToken > 0 && reserveCollateral > 0 && wToken > 0 && wCollateral > 0
                && reserveCollateral + cIn < TWO_POW_128 ==>
                  var base := ONE18 * reserveCollateral / (reserveCollateral + cIn);
                  && 0 <= base < ONE18
                  && (r.Err? <==> PowFrac(base, wCollateral, wToken).Err?)
                  && (r.Err? ==> base > 0 && wCollateral != wToken && r == Err(Overflow))
                  && (r.Ok? ==> r.value == reserveToken * (ONE18 - PowFrac(base, wCollateral, wToken).value) / ONE18))
  {
    if cIn > 0 && reserveToken > 0 && reserveCollateral > 0 && wToken > 0 && wCollateral > 0 && reserveCollateral + cIn < TWO_POW_128 {
      BaseIs(reserveCollateral, cIn);
      var base := ONE18 * reserveCollateral / (reserveCollateral + cIn);
      PowFracIs(base, wCollateral, wToken);
      var p := PowFrac(base, wCollateral, wToken);
      if p.Ok? {
        PayoutIs(reserveToken, p.value);
      } else {
        PowFracFailsByOverflow(base, wCollateral, wToken);
      }
    }
  }
}
