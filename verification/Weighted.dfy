/** The decimal control kernel of src/weighted.rs: the same power at scale 1e18,
    and the weight schedule. */
module Weighted {
  import opened Arithmetic
  import opened WideInt
  import opened Words
  import opened Wrappers
  import BinFixed
  import BinPower

  const ONE: int := 1_000_000_000_000_000_000
  const LN2: int := 693_147_180_559_945_309
  const ATANH_TERMS := 24
  const EXP_TERMS := 24

  // -------------------------------------------------------------- the logarithm

  /** a * b / ONE, rounded down. */
  function Mul(a: nat, b: nat): (p: nat)
    ensures p == a * b / ONE
  {
    MulMono(0, a, b);
    DivMono(0, a * b, ONE);
    a * b / ONE
  }

  function Part(a: nat, d: nat): (p: nat)
    requires d > 0
    ensures p == a / d && p <= a
  {
    FloorAdjoint(0, a, d);
    FloorAdjoint(a + 1, a, d);
    MulMono(1, d, a + 1);
    a / d
  }

  /** (term, sum) of the atanh series after the i-th term. */
  function AtanhState(z: nat, z2: nat, i: nat): (nat, nat)
    decreases i, z
  {
    if i == 0 then (z, z)
    else
      var (term, sum) := AtanhState(z, z2, i - 1);
      var next := Mul(term, z2);
      (next, sum + Part(next, 2 * i + 1))
  }

  /** Terms never grow, so neither products nor sums come near 128 bits. */
  lemma {:induction false} AtanhStateBound(z: nat, z2: nat, i: nat)
    requires z <= ONE && z2 <= ONE
    ensures AtanhState(z, z2, i).0 <= ONE
    ensures AtanhState(z, z2, i).1 <= (i + 1) * ONE
  {
    if i > 0 {
      AtanhStateBound(z, z2, i - 1);
      Shrinks(AtanhState(z, z2, i - 1).0, z2);
    }
  }

  lemma Shrinks(a: nat, b: nat)
    requires b <= ONE
    ensures Mul(a, b) <= a
  {
    MulMono(b, ONE, a);
    DivMono(a * b, a * ONE, ONE);
    DivUnique(a * ONE, ONE, a, 0);
  }

  /** Each term is at most half the last, so the sum stays below twice the first. */
  lemma {:induction false} AtanhStateSmall(z: nat, z2: nat, i: nat)
    requires 2 * z2 <= ONE
    ensures AtanhState(z, z2, i).0 + AtanhState(z, z2, i).1 <= 2 * z
    ensures AtanhState(z, z2, i).1 >= z
  {
    if i > 0 {
      AtanhStateSmall(z, z2, i - 1);
      Halves(AtanhState(z, z2, i - 1).0, z2);
    }
  }

  lemma Halves(a: nat, b: nat)
    requires 2 * b <= ONE
    ensures 2 * Mul(a, b) <= a
  {
    MulMono(2 * b, ONE, a);
    assert a * (2 * b) == 2 * (a * b);
  }

  /** -ln x for 0 < x <= 1. */
  function NegLog(x: int): int
    requires 0 < x <= ONE
  {
    if x == ONE then 0
    else
      var (m, k) := BinFixed.Normalised(x, ONE / 2);
      var low :=
        if m >= ONE then 0
        else
          var z := (ONE - m) * ONE / (ONE + m);
          2 * AtanhState(z, Mul(z, z), ATANH_TERMS - 1).1;
      LN2 * k + low
  }

  lemma NegLogBound(x: int)
    requires 0 < x < ONE
    ensures var (m, k) := BinFixed.Normalised(x, ONE / 2);
            && ONE / 2 <= m < ONE && k <= 59
            && 0 <= (ONE - m) * ONE / (ONE + m) <= ONE
            && Mul((ONE - m) * ONE / (ONE + m), (ONE - m) * ONE / (ONE + m)) <= ONE
    ensures 0 <= NegLog(x) <= 59 * LN2 + 48 * ONE
  {
    var (m, k) := BinFixed.Normalised(x, ONE / 2);
    BinFixed.SmallPowers();
    assert Pow2(60) == 2 * Pow2(59);
    BinFixed.ShiftCount(x, ONE / 2, 59);
    assert (ONE - m) * ONE <= ONE * (ONE + m);
    FloorAdjoint(0, (ONE - m) * ONE, ONE + m);
    FloorAdjoint(ONE + 1, (ONE - m) * ONE, ONE + m);
    assert (ONE + 1) * (ONE + m) > (ONE - m) * ONE;
    var z := (ONE - m) * ONE / (ONE + m);
    Shrinks(z, z);
    AtanhStateBound(z, Mul(z, z), ATANH_TERMS - 1);
  }

  /** The logarithm is the shift count times ln 2, and between z and 4/3 more. */
  lemma NegLogNearShifts(x: int)
    requires 0 < x < ONE
    ensures var (m, k) := BinFixed.Normalised(x, ONE / 2);
            var z := (ONE - m) * ONE / (ONE + m);
            2 * z <= NegLog(x) - LN2 * k <= 4 * z && 3 * z <= ONE
  {
    NegLogBound(x);
    var (m, k) := BinFixed.Normalised(x, ONE / 2);
    var z := (ONE - m) * ONE / (ONE + m);
    AtMostAThird(m, (ONE - m) * ONE, ONE + m);
    LowPart(z);
  }

  lemma AtMostAThird(m: int, n: int, d: int)
    requires ONE / 2 <= m < ONE && n == (ONE - m) * ONE && d == ONE + m
    ensures 0 <= n / d && 3 * (n / d) <= ONE
  {
    DivBelow(n, d, ONE / 3 + 1);
  }

  lemma LowPart(z: nat)
    requires 3 * z <= ONE
    ensures z <= AtanhState(z, Mul(z, z), ATANH_TERMS - 1).1 <= 2 * z
  {
    SquareOfAThird(z);
    AtanhStateSmall(z, Mul(z, z), ATANH_TERMS - 1);
  }

  lemma SquareOfAThird(z: nat)
    requires 3 * z <= ONE
    ensures 2 * Mul(z, z) <= ONE
  {
    Shrinks(z, z);
  }

  /** `neg_ln`: every product through 256 bits, every sum checked; none fails. */
  method NegLn(x: u128) returns (r: Result<u128, CurveError>)
    ensures x == 0 ==> r == Err(ZeroAmount)
    ensures x > ONE ==> r == Err(QuantityAtOrAboveReserve)
    ensures 0 < x <= ONE ==> r == Ok(NegLog(x))
  {
    if x == 0 {
      return Err(ZeroAmount);
    }
    if x > ONE {
      return Err(QuantityAtOrAboveReserve);
    }
    if x == ONE {
      return Ok(0);
    }
    NegLogBound(x);
    var m, k := BinFixed.DoubleUntil(x, ONE / 2);
    var z := MulDivFloor(ONE - m, ONE, ONE + m);
    var sum := AtanhSum(z.value);
    return Ok(LN2 * k + 2 * sum);
  }

  method AtanhSum(z: u128) returns (sum: u128)
    requires z <= ONE && Mul(z, z) <= ONE
    ensures sum == AtanhState(z, Mul(z, z), ATANH_TERMS - 1).1
    ensures sum <= ATANH_TERMS * ONE
  {
    Shrinks(z, z);
    var z2 := MulDivFloor(z, z, ONE);
    assert z2 == Ok(Mul(z, z));
    var term: u128 := z;
    sum := z;
    for i := 1 to ATANH_TERMS
      invariant (term, sum) == AtanhState(z, Mul(z, z), i - 1)
    {
      AtanhStateBound(z, Mul(z, z), i - 1);
      AtanhStateBound(z, Mul(z, z), i);
      Shrinks(term, Mul(z, z));
      var next := MulDivFloor(term, z2.value, ONE);
      term := next.value;
      sum := sum + term / (2 * i + 1);
    }
    AtanhStateBound(z, Mul(z, z), ATANH_TERMS - 1);
  }

  // ------------------------------------------------------------ the exponential

  /** The sums of the exponential series after the i-th term; nothing is ever negative. */
  datatype Series = Series(term: nat, pos: nat, neg: nat)

  function NextTerm(term: nat, r: nat, i: nat): nat
    requires i > 0
  {
    Part(Mul(term, r), i)
  }

  lemma NextTermShrinks(term: nat, r: nat, i: nat)
    requires i > 0 && r <= ONE
    ensures NextTerm(term, r, i) <= term
  {
    Shrinks(term, r);
  }

  function ExpState(r: nat, i: nat): Series
    decreases i, r
  {
    if i == 0 then Series(ONE, ONE, 0)
    else
      var s := ExpState(r, i - 1);
      var term := NextTerm(s.term, r, i);
      if i % 2 == 1 then Series(term, s.pos, s.neg + term) else Series(term, s.pos + term, s.neg)
  }

  /** After the i-th term the alternating sum is between 0 and 1, with the term to spare. */
  predicate Alternating(s: Series, i: nat) {
    && s.term <= ONE
    && s.pos <= (i + 1) * ONE && s.neg <= i * ONE
    && if i % 2 == 0 then s.term <= s.pos - s.neg <= ONE else 0 <= s.pos - s.neg <= ONE - s.term
  }

  lemma AlternatingStep(s: Series, i: nat, term: nat)
    requires i > 0 && Alternating(s, i - 1) && term <= s.term
    ensures Alternating(if i % 2 == 1 then Series(term, s.pos, s.neg + term) else Series(term, s.pos + term, s.neg), i)
  {
  }

  lemma {:induction false} ExpStateBound(r: nat, i: nat)
    requires r <= ONE
    ensures Alternating(ExpState(r, i), i)
  {
    if i > 0 {
      ExpStateBound(r, i - 1);
      var s := ExpState(r, i - 1);
      NextTermShrinks(s.term, r, i);
      AlternatingStep(s, i, NextTerm(s.term, r, i));
    }
  }

  /** Once a term is zero the rest add nothing, which is why the loop may stop. */
  lemma {:induction false} ZeroStays(r: nat, i: nat, j: nat)
    requires i <= j && r <= ONE && ExpState(r, i).term == 0
    ensures ExpState(r, j) == ExpState(r, i)
    decreases j
  {
    if i < j {
      ZeroStays(r, i, j - 1);
      NextTermShrinks(0, r, j);
    }
  }

  function Exp(y: int): int
    requires y >= 0
  {
    if y == 0 then ONE
    else
      var n, r := y / LN2, y % LN2;
      if n >= 128 then 0
      else
        var s := ExpState(r, EXP_TERMS - 1);
        (s.pos - s.neg) / Pow2(n)
  }

  lemma ExpBound(y: int)
    requires y >= 0
    ensures 0 <= Exp(y) <= ONE
  {
    if y > 0 && y / LN2 < 128 {
      DivMod(y, LN2);
      ExpStateBound(y % LN2, EXP_TERMS - 1);
      var s := ExpState(y % LN2, EXP_TERMS - 1);
      var v, p := s.pos - s.neg, Pow2(y / LN2);
      FloorAdjoint(0, v, p);
      FloorAdjoint(v + 1, v, p);
      MulMono(1, p, v + 1);
    }
  }

  /** `exp_neg`: two running sums and an early stop; no check ever fails. */
  method ExpNeg(y: u128) returns (e: u128)
    ensures e == Exp(y) && e <= ONE
  {
    ExpBound(y);
    if y == 0 {
      return ONE;
    }
    DivMod(y, LN2);
    var n, r := y / LN2, y % LN2;
    if n >= 128 {
      return 0;
    }
    var pos, neg := ExpSums(r);
    e := (pos - neg) / Pow2(n);
  }

  method ExpSums(r: u128) returns (pos: u128, neg: u128)
    requires r <= ONE
    ensures pos == ExpState(r, EXP_TERMS - 1).pos && neg == ExpState(r, EXP_TERMS - 1).neg
    ensures neg <= pos
  {
    ExpStateBound(r, EXP_TERMS - 1);
    var term: u128 := ONE;
    pos, neg := ONE, 0;
    for i := 1 to EXP_TERMS
      invariant Series(term, pos, neg) == ExpState(r, i - 1)
    {
      ExpStateBound(r, i - 1);
      ExpStateBound(r, i);
      Shrinks(term, r);
      NextTermShrinks(term, r, i);
      var scaled := MulDivFloor(term, r, ONE);
      assert scaled == Ok(Mul(term, r));
      term := scaled.value / i;
      if term == 0 {
        ZeroStays(r, i, EXP_TERMS - 1);
        break;
      }
      if i % 2 == 1 {
        neg := neg + term;
      } else {
        pos := pos + term;
      }
    }
  }

  // ------------------------------------------------------------- power and swap

  function PowFrac(x: u128, num: u128, den: u128): Result<u128, CurveError>
  {
    if den == 0 then Err(ZeroAmount)
    else if x == ONE then Ok(ONE)
    else if num == den then Ok(x)
    else if x == 0 then Err(ZeroAmount)
    else if x > ONE then Err(QuantityAtOrAboveReserve)
    else
      NegLogBound(x);
      match FloorQuotient(NegLog(x), num, den)
      case Err(e) => Err(e)
      case Ok(y) =>
        ExpBound(y);
        Ok(Exp(y))
  }

  /** `pow_frac` as it runs. */
  method RunPowFrac(x: u128, num: u128, den: u128) returns (r: Result<u128, CurveError>)
    ensures r == PowFrac(x, num, den)
  {
    if den == 0 {
      return Err(ZeroAmount);
    }
    if x == ONE {
      return Ok(ONE);
    }
    if num == den {
      return Ok(x);
    }
    var nl :- NegLn(x);
    NegLogBound(x);
    var scaled :- MulDivFloor(nl, num, den);
    var e := ExpNeg(scaled);
    return Ok(e);
  }

  /** A power of a fraction is a fraction here too, and a base above one only has
      its first power; with this kernel's own list of refusals. */
  lemma PowFracIs(x: u128, num: u128, den: u128)
    ensures PowFrac(x, num, den).Ok? && x <= ONE ==> PowFrac(x, num, den).value <= ONE
    ensures PowFrac(x, num, den).Ok? && x > ONE ==> num == den && PowFrac(x, num, den).value == x
    ensures PowFrac(x, num, den).Err? <==>
              || den == 0
              || (num != den && (x == 0 || x > ONE))
              || (num != den && 0 < x < ONE && NegLog(x) * num / den >= TWO_POW_128)
  {
    if den > 0 && 0 < x < ONE && num != den {
      NegLogBound(x);
      var y := FloorQuotient(NegLog(x), num, den);
      if y.Ok? {
        ExpBound(y.value);
      }
    }
  }

  function WeightedBuy(reserveToken: u128, reserveCollateral: u128, cIn: u128, wToken: u128, wCollateral: u128)
    : Result<u128, CurveError>
  {
    if cIn == 0 || reserveToken == 0 || reserveCollateral == 0 then Err(ZeroAmount)
    else if wToken == 0 || wCollateral == 0 then Err(ZeroAmount)
    else if reserveCollateral + cIn >= TWO_POW_128 then Err(Overflow)
    else
      match FloorQuotient(reserveCollateral, ONE, reserveCollateral + cIn)
      case Err(e) => Err(e)
      case Ok(base) =>
        match PowFrac(base, wCollateral, wToken)
        case Err(e) => Err(e)
        case Ok(p) =>
          if p > ONE then Err(Overflow)
          else
            match FloorQuotient(reserveToken, ONE - p, ONE)
            case Err(e) => Err(e)
            case Ok(out) => if out > reserveToken then Err(ExceedsSaleReserve) else Ok(out)
  }

  /** Never more than the reserve, and refused past its input checks only where
      the power is: here also for a buy so large that the price ratio rounds to zero. */
  lemma WeightedBuyIs(reserveToken: u128, reserveCollateral: u128, cIn: u128, wToken: u128, wCollateral: u128)
    ensures var r := WeightedBuy(reserveToken, reserveCollateral, cIn, wToken, wCollateral);
            && (r.Ok? ==> r.value <= reserveToken)
            && (cIn == 0 || reserveToken == 0 || reserveCollateral == 0 || wToken == 0 || wCollateral == 0 ==> r == Err(ZeroAmount))
            && (reserveCollateral + cIn >= TWO_POW_128 && r.Err? && r.error != ZeroAmount ==> r == Err(Overflow))
            && (reserveCollateral + cIn >= TWO_POW_128 ==> r.Err?)
            && (cIn > 0 && reserveToken > 0 && reserveCollateral > 0 && wToken > 0 && wCollateral > 0
                && reserveCollateral + cIn < TWO_POW_128 ==>
                  var base := ONE * reserveCollateral / (reserveCollateral + cIn);
                  && 0 <= base < ONE
                  && (r.Err? <==> PowFrac(base, wCollateral, wToken).Err?)
                  && (r.Err? && base > 0 ==> r == Err(Overflow))
                  && (base == 0 && wToken != wCollateral ==>
                        && r == Err(ZeroAmount)
                        && BinPower.WeightedBuy(reserveToken, reserveCollateral, cIn, wToken, wCollateral) == Ok(reserveToken))
                  && (r.Ok? ==> r.value == reserveToken * (ONE - PowFrac(base, wCollateral, wToken).value) / ONE))
  {
    if cIn > 0 && reserveToken > 0 && reserveCollateral > 0 && wToken > 0 && wCollateral > 0 && reserveCollateral + cIn < TWO_POW_128 {
      BinPower.BaseIs(reserveCollateral, cIn);
      var base := ONE * reserveCollateral / (reserveCollateral + cIn);
      PowFracIs(base, wCollateral, wToken);
      var p := PowFrac(base, wCollateral, wToken);
      if p.Ok? {
        BinPower.PayoutIs(reserveToken, p.value);
      }
      if base == 0 && wToken != wCollateral {
        DivUnique(reserveToken * ONE, ONE, reserveToken, 0);
      }
    }
  }

  // ---------------------------------------------------------------- the weights

  function WeightAt(wStart: u128, wEnd: u128, tStart: u64, tEnd: u64, now: u64): Result<u128, CurveError>
  {
    if tEnd <= tStart then Err(ZeroAmount)
    else if now <= tStart then Ok(wStart)
    else if now >= tEnd then Ok(wEnd)
    else
      var gap := if wEnd >= wStart then wEnd - wStart else wStart - wEnd;
      match FloorQuotient(gap, now - tStart, tEnd - tStart)
      case Err(e) => Err(e)
      case Ok(delta) =>
        if wEnd >= wStart then
          if wStart + delta >= TWO_POW_128 then Err(Overflow) else Ok(wStart + delta)
        else if delta > wStart then Err(Overflow)
        else Ok(wStart - delta)
  }

  /** On every proper span: the two ends outside of it, and inside the floored share
      of the gap that has passed, from the start toward the end; a span that is not
      proper has no weight. */
  lemma WeightIs(wStart: u128, wEnd: u128, tStart: u64, tEnd: u64, now: u64)
    ensures tEnd <= tStart ==> WeightAt(wStart, wEnd, tStart, tEnd, now) == Err(ZeroAmount)
    ensures tStart < tEnd ==>
              WeightAt(wStart, wEnd, tStart, tEnd, now) ==
              if now <= tStart then Ok(wStart)
              else if now >= tEnd then Ok(wEnd)
              else if wStart <= wEnd then Ok(wStart + (wEnd - wStart) * (now - tStart) / (tEnd - tStart))
              else Ok(wStart - (wStart - wEnd) * (now - tStart) / (tEnd - tStart))
  {
    if tStart < now < tEnd {
      var gap := if wEnd >= wStart then wEnd - wStart else wStart - wEnd;
      BinPower.ShareBelow(gap, now - tStart, tEnd - tStart);
    }
  }

  /** On every proper span the weight exists at every time, starts and ends where it
      should, and moves one way only in between. */
  lemma WeightMovesOneWay(wStart: u128, wEnd: u128, tStart: u64, tEnd: u64, t: u64, t': u64)
    requires tStart < tEnd && t <= t'
    ensures var w, w' := WeightAt(wStart, wEnd, tStart, tEnd, t), WeightAt(wStart, wEnd, tStart, tEnd, t');
            && w.Ok? && w'.Ok?
            && (wStart <= wEnd ==> wStart <= w.value <= w'.value <= wEnd)
            && (wEnd <= wStart ==> wEnd <= w'.value <= w.value <= wStart)
  {
    var gap := if wEnd >= wStart then wEnd - wStart else wStart - wEnd;
    if tStart < t < tEnd {
      BinPower.ShareBelow(gap, t - tStart, tEnd - tStart);
    }
    if tStart < t' < tEnd {
      BinPower.ShareBelow(gap, t' - tStart, tEnd - tStart);
    }
    if tStart < t && t' < tEnd {
      MulMono(t - tStart, t' - tStart, gap);
      DivMono(gap * (t - tStart), gap * (t' - tStart), tEnd - tStart);
    }
  }
}
