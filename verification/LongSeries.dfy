/** Both kernels against every longer sum of the series, ln 2 included: nothing stored
    is left on the exact side of either the logarithm or the exponential. */
module LongSeries {
  import opened Arithmetic
  import opened BinError
  import opened BinFixed
  import opened Horner
  import DecError
  import Weighted

  const SCALE: real := DecError.SCALE

  // -------------------------------------------------------------------- ln 2

  /** The first n terms of 2 atanh(1/3), which is ln 2. */
  function Ln2Series(n: nat): real {
    TwiceAtanhSeries(1.0 / 3.0, n)
  }

  /** One level of the nesting at 1/9. */
  predicate Nests(v: nat -> real, i: nat) {
    v(i) == 1.0 / (2 * i + 1) as real + v(i + 1) / 9.0
  }

  lemma InnerTen(v: nat -> real)
    requires 0.0 <= v(20) <= 1.2 && forall i :: 10 <= i < 20 ==> Nests(v, i)
    ensures 0.053000463615534 <= v(10) <= 0.053000463959692
  {
    assert Nests(v, 10) && Nests(v, 11) && Nests(v, 12) && Nests(v, 13) && Nests(v, 14);
    assert Nests(v, 15) && Nests(v, 16) && Nests(v, 17) && Nests(v, 18) && Nests(v, 19);
  }

  lemma OuterTen(v: nat -> real)
    requires 0.053000463615534 <= v(10) <= 0.053000463959692 && forall i :: 0 <= i < 10 ==> Nests(v, i)
    ensures 1.0397207708399179641 <= v(0) <= 1.03972077083991796424
  {
    assert Nests(v, 0) && Nests(v, 1) && Nests(v, 2) && Nests(v, 3) && Nests(v, 4);
    assert Nests(v, 5) && Nests(v, 6) && Nests(v, 7) && Nests(v, 8) && Nests(v, 9);
  }

  /** Twenty levels settle the value however many follow. */
  lemma NinthNested(n: nat)
    requires n >= 20
    ensures 1.0397207708399179641 <= Polynomial(AtanhExact, 1.0 / 9.0, n + 1) <= 1.03972077083991796424
  {
    var ninth := 1.0 / 9.0;
    AtanhUnitalTo(n);
    NestedBound(AtanhExact, ninth, 20, n, ninth, 1.125);
    NestedLevels((i: nat) => if i <= n then Nested(AtanhExact, ninth, i, n) else 0.0, n);
    FromNested(AtanhExact, ninth, n);
  }

  lemma NestedLevels(v: nat -> real, n: nat)
    requires n >= 20 && 0.0 <= v(20) <= 1.2
    requires forall i: nat {:trigger v(i)} :: i <= n ==> v(i) == Nested(AtanhExact, 1.0 / 9.0, i, n)
    ensures 1.0397207708399179641 <= Nested(AtanhExact, 1.0 / 9.0, 0, n) <= 1.03972077083991796424
  {
    forall i | 0 <= i < 20
      ensures Nests(v, i)
    {
      Level(v(i), v(i + 1), i, n);
    }
    InnerTen(v);
    OuterTen(v);
  }

  lemma Level(here: real, next: real, i: nat, n: nat)
    requires i < n && here == Nested(AtanhExact, 1.0 / 9.0, i, n) && next == Nested(AtanhExact, 1.0 / 9.0, i + 1, n)
    ensures here == 1.0 / (2 * i + 1) as real + next / 9.0
  {
  }

  lemma AtanhUnitalTo(n: nat)
    ensures Unital(AtanhExact, n)
  {
    forall i: nat | 0 <= i <= n
      ensures 0.0 <= AtanhExact(i) <= 1.0
    {
      OddShare((2 * i + 1) as real);
    }
  }

  lemma OddShare(d: real)
    requires d >= 1.0
    ensures 0.0 <= 1.0 / d <= 1.0
  {
  }

  /** Both stored constants are ln 2 rounded to nearest, by every sum of 21 or more terms. */
  lemma StoredLn2(more: nat)
    ensures -0.5 <= LN2_62 as real - UNIT * Ln2Series(21 + more) <= 0.5
    ensures -0.5 <= Weighted.LN2 as real - SCALE * Ln2Series(21 + more) <= 0.5
  {
    NinthNested(20 + more);
    assert 1.0 / 3.0 * (1.0 / 3.0) == 1.0 / 9.0;
    TwoThirds(Polynomial(AtanhExact, 1.0 / 9.0, 21 + more), Ln2Series(21 + more));
  }

  lemma TwoThirds(p: real, ln2: real)
    requires 1.0397207708399179641 <= p <= 1.03972077083991796424 && ln2 == 2.0 * (1.0 / 3.0) * p
    ensures -0.5 <= LN2_62 as real - UNIT * ln2 <= 0.5
    ensures -0.5 <= Weighted.LN2 as real - SCALE * ln2 <= 0.5
  {
  }

  /** Shift counts times ln 2. */
  lemma Shifts(k: nat, stored: int, scale: real, exact: real)
    requires -0.5 <= stored as real - scale * exact <= 0.5
    ensures -0.5 * k as real <= (k * stored) as real - scale * (k as real * exact) <= 0.5 * k as real
  {
    var e := stored as real - scale * exact;
    assert (k * stored) as real == k as real * stored as real;
    Within(e, 0.5, k as real, k as real);
    assert k as real * stored as real - scale * (k as real * exact) == e * k as real by {
      assert scale * (k as real * exact) == scale * exact * k as real;
    }
  }

  // --------------------------------------------------------- the binary logarithm

  /** -ln of an argument: k ln 2 - 2 atanh((m - 1) / (m + 1)), both series of any length. */
  function ExactNegLog(m: int, k: nat, n: nat, l: nat): real
    requires m > 0
  {
    k as real * Ln2Series(l) - TwiceAtanhSeries(Tau(m), n)
  }

  /** The binary logarithm of every argument, within 4.3 units and half a unit for each
      shift of its exact value by every longer pair of sums. */
  lemma BinLogIsClose(x: int, more: nat, terms: nat)
    requires 0 < x <= ONE62
    ensures var (m, k) := Normalised(x, SQRT2_HALF_62);
            var slack := 4.3 + 0.5 * k as real;
            -slack <= NegLog62(x) as real - UNIT * ExactNegLog(m, k, 13 + more, 21 + terms) <= slack
  {
    NegLogBound(x);
    var (m, k) := Normalised(x, SQRT2_HALF_62);
    NegLogIsCloseToAll(x, more);
    BinFrom(NegLog62(x), m, k, 13 + more, terms);
  }

  lemma BinFrom(v: int, m: int, k: nat, n: nat, terms: nat)
    requires m > 0 && -3.3 <= v as real - ((k * LN2_62) as real - UNIT * TwiceAtanhSeries(Tau(m), n)) <= 4.3
    ensures var slack := 4.3 + 0.5 * k as real;
            -slack <= v as real - UNIT * ExactNegLog(m, k, n, 21 + terms) <= slack
  {
    StoredLn2(terms);
    Shifts(k, LN2_62, UNIT, Ln2Series(21 + terms));
    AddShifts(v as real, (k * LN2_62) as real, k as real * Ln2Series(21 + terms), TwiceAtanhSeries(Tau(m), n), 0.5 * k as real);
  }

  lemma AddShifts(v: real, stored: real, exact: real, series: real, slack: real)
    requires -3.3 <= v - (stored - UNIT * series) <= 4.3 && -slack <= stored - UNIT * exact <= slack
    ensures -(4.3 + slack) <= v - UNIT * (exact - series) <= 4.3 + slack
  {
  }

  // -------------------------------------------------------- the decimal logarithm

  /** Two sums that start at zero and move in proportion. */
  predicate Follow(sum: nat -> real, of: nat -> real, factor: real, j: nat) {
    sum(j + 1) - sum(j) == factor * (of(j + 1) - of(j))
  }

  lemma {:induction false} InProportion(sum: nat -> real, of: nat -> real, factor: real, n: nat)
    requires sum(0) == 0.0 && of(0) == 0.0 && forall j :: 0 <= j < n ==> Follow(sum, of, factor, j)
    ensures sum(n) == factor * of(n)
  {
    if n > 0 {
      InProportion(sum, of, factor, n - 1);
      assert Follow(sum, of, factor, n - 1);
      Distribute(factor, of(n - 1), of(n));
    }
  }

  lemma Distribute(factor: real, before: real, after: real)
    ensures factor * before + factor * (after - before) == factor * after
  {
  }

  lemma OddSeriesIs(tau: real, q: real, n: nat)
    ensures DecError.OddSeries(tau, q, n) == tau * Polynomial(AtanhExact, q, n)
  {
    OddSeriesOf((j: nat) => DecError.OddSeries(tau, q, j), (j: nat) => Polynomial(AtanhExact, q, j), tau, q, n);
  }

  lemma OddSeriesOf(sum: nat -> real, of: nat -> real, tau: real, q: real, n: nat)
    requires forall j: nat {:trigger sum(j)} :: sum(j) == DecError.OddSeries(tau, q, j)
    requires forall j: nat {:trigger of(j)} :: of(j) == Polynomial(AtanhExact, q, j)
    ensures sum(n) == tau * of(n)
  {
    forall j | 0 <= j < n
      ensures Follow(sum, of, tau, j)
    {
      OddAt(sum, of, tau, q, j);
    }
    InProportion(sum, of, tau, n);
  }

  lemma OddAt(sum: nat -> real, of: nat -> real, tau: real, q: real, j: nat)
    requires sum(j) == DecError.OddSeries(tau, q, j) && sum(j + 1) == DecError.OddSeries(tau, q, j + 1)
    requires of(j) == Polynomial(AtanhExact, q, j) && of(j + 1) == Polynomial(AtanhExact, q, j + 1)
    ensures Follow(sum, of, tau, j)
  {
    DecError.NextTerms(AtanhExact, q, j);
    NextOdd(tau, q, j);
    OddStep(sum(j + 1) - sum(j), of(j + 1) - of(j), tau, q, j);
  }

  lemma NextOdd(tau: real, q: real, j: nat)
    ensures DecError.OddSeries(tau, q, j + 1) - DecError.OddSeries(tau, q, j) == DecError.TauPower(tau, q, j) / (2 * j + 1) as real
  {
    assert 2 * (j + 1) - 1 == 2 * j + 1;
  }

  lemma OddStep(step': real, step: real, tau: real, q: real, j: nat)
    requires step' == DecError.TauPower(tau, q, j) / (2 * j + 1) as real && step == AtanhExact(j) * Pow(q, j)
    ensures step' == tau * step
  {
    OddTerm(tau, Pow(q, j), (2 * j + 1) as real, step, step');
  }

  lemma OddTerm(tau: real, p: real, d: real, step: real, step': real)
    requires d > 0.0 && step == 1.0 / d * p && step' == tau * p / d
    ensures step' == tau * step
  {
    var share := 1.0 / d;
    assert step' == tau * p * share;
    assert tau * p * share == tau * (share * p);
  }

  lemma NinthTail(q: real, n: nat, more: nat)
    requires 0.0 <= q <= 0.1112 && n == 24
    ensures -0.01 <= SCALE * (Polynomial(AtanhExact, q, n + more) - Polynomial(AtanhExact, q, n)) <= 0.01
  {
    forall i: nat | n <= i
      ensures -1.0 <= AtanhExact(i) <= 1.0
    {
      OddShare((2 * i + 1) as real);
    }
    LongerSum(AtanhExact, q, 0.1112, 1.0, 1.0 / 0.8888, n, more);
    NinthPower();
  }

  lemma NinthPower()
    ensures Pow(0.1112, 24) <= 0.000000000000000000001
  {
    assert Pow(0.1112, 6) <= 0.0000019;
    assert Pow(0.1112, 12) <= 0.0000000000037;
    assert Pow(0.1112, 18) <= 0.000000000000000008;
  }

  lemma DecTail(tau: real, short: real, long: real)
    requires 0.0 <= tau <= 0.3334 && -0.01 <= SCALE * (long - short) <= 0.01
    ensures -0.02 <= SCALE * (2.0 * (tau * long)) - SCALE * (2.0 * (tau * short)) <= 0.02
  {
    var d := SCALE * (long - short);
    Within(d, 0.01, tau, 0.3334);
    assert SCALE * (tau * long) - SCALE * (tau * short) == d * tau;
  }

  /** -ln of a fraction: k ln 2 + 2 atanh((1 - m) / (1 + m)). */
  function ExactDecNegLog(m: int, k: nat, n: nat, l: nat): real
    requires Weighted.ONE / 2 <= m < Weighted.ONE
  {
    k as real * Ln2Series(l) + TwiceAtanhSeries(DecError.MantissaRatio(m), n)
  }

  lemma TwiceAtanhTail(m: int, more: nat)
    requires Weighted.ONE / 2 <= m < Weighted.ONE
    ensures var tau := DecError.MantissaRatio(m);
            -0.02 <= SCALE * TwiceAtanhSeries(tau, 24 + more) - SCALE * (2.0 * DecError.ExactAtanh(tau)) <= 0.02
  {
    DecError.FlooredRatioIsClose(m);
    SmallTail(DecError.MantissaRatio(m), more);
  }

  lemma SmallTail(tau: real, more: nat)
    requires 0.0 <= tau <= 0.3334
    ensures -0.02 <= SCALE * TwiceAtanhSeries(tau, 24 + more) - SCALE * (2.0 * DecError.ExactAtanh(tau)) <= 0.02
  {
    Within(tau, 0.3334, tau, 0.3334);
    NonNegative(tau, tau);
    TailAt(tau, tau * tau, 24, more, DecError.ExactAtanh(tau), TwiceAtanhSeries(tau, 24 + more));
  }

  lemma TailAt(tau: real, q: real, n: nat, more: nat, half: real, twice: real)
    requires 0.0 <= tau <= 0.3334 && 0.0 <= q <= 0.1112 && n == 24
    requires half == DecError.OddSeries(tau, q, n) && twice == 2.0 * tau * Polynomial(AtanhExact, q, n + more)
    ensures -0.02 <= SCALE * twice - SCALE * (2.0 * half) <= 0.02
  {
    NinthTail(q, n, more);
    OddSeriesIs(tau, q, n);
    NamedTail(tau, Polynomial(AtanhExact, q, n), Polynomial(AtanhExact, q, n + more), half, twice);
  }

  lemma NamedTail(tau: real, short: real, long: real, half: real, twice: real)
    requires 0.0 <= tau <= 0.3334 && -0.01 <= SCALE * (long - short) <= 0.01
    requires half == tau * short && twice == 2.0 * tau * long
    ensures -0.02 <= SCALE * twice - SCALE * (2.0 * half) <= 0.02
  {
    DecTail(tau, short, long);
    assert twice == 2.0 * (tau * long);
  }

  /** The same of the decimal logarithm, which is within 77 units and half a unit for
      each shift. */
  lemma DecLogIsClose(x: int, more: nat, terms: nat)
    requires 0 < x < Weighted.ONE
    ensures var (m, k) := Normalised(x, Weighted.ONE / 2);
            var slack := 77.0 + 0.5 * k as real;
            -slack <= Weighted.NegLog(x) as real - SCALE * ExactDecNegLog(m, k, 24 + more, 21 + terms) <= slack
  {
    Weighted.NegLogBound(x);
    var (m, k) := Normalised(x, Weighted.ONE / 2);
    DecError.LogIsClose(x);
    DecAt(Weighted.NegLog(x), m, k, more, terms);
  }

  lemma DecAt(v: int, m: int, k: nat, more: nat, terms: nat)
    requires Weighted.ONE / 2 <= m < Weighted.ONE
    requires 0.0 <= (Weighted.LN2 * k) as real + SCALE * (2.0 * DecError.ExactAtanh(DecError.MantissaRatio(m))) - v as real <= 76.8
    ensures var slack := 77.0 + 0.5 * k as real;
            -slack <= v as real - SCALE * ExactDecNegLog(m, k, 24 + more, 21 + terms) <= slack
  {
    var tau := DecError.MantissaRatio(m);
    TwiceAtanhTail(m, more);
    DecFrom(v, k, DecError.ExactAtanh(tau), TwiceAtanhSeries(tau, 24 + more), terms);
  }

  lemma DecFrom(v: int, k: nat, half: real, long: real, terms: nat)
    requires 0.0 <= (Weighted.LN2 * k) as real + SCALE * (2.0 * half) - v as real <= 76.8
    requires -0.02 <= SCALE * long - SCALE * (2.0 * half) <= 0.02
    ensures var slack := 77.0 + 0.5 * k as real;
            -slack <= v as real - SCALE * (k as real * Ln2Series(21 + terms) + long) <= slack
  {
    StoredLn2(terms);
    Shifts(k, Weighted.LN2, SCALE, Ln2Series(21 + terms));
    DecSum(v as real, k, Ln2Series(21 + terms), half, long);
  }

  lemma DecSum(v: real, k: nat, ln2: real, half: real, long: real)
    requires -0.5 * k as real <= (k * Weighted.LN2) as real - SCALE * (k as real * ln2) <= 0.5 * k as real
    requires 0.0 <= (Weighted.LN2 * k) as real + SCALE * (2.0 * half) - v <= 76.8
    requires -0.02 <= SCALE * long - SCALE * (2.0 * half) <= 0.02
    ensures var slack := 77.0 + 0.5 * k as real; -slack <= v - SCALE * (k as real * ln2 + long) <= slack
  {
    AddDecShifts(v, (Weighted.LN2 * k) as real, k as real * ln2, 2.0 * half, long, 0.5 * k as real);
  }

  lemma AddDecShifts(v: real, stored: real, exact: real, short: real, long: real, slack: real)
    requires 0.0 <= stored + SCALE * short - v <= 76.8 && -slack <= stored - SCALE * exact <= slack
    requires -0.02 <= SCALE * long - SCALE * short <= 0.02
    ensures -(77.0 + slack) <= v - SCALE * (exact + long) <= 77.0 + slack
  {
  }

  // ------------------------------------------------------- the decimal exponential

  /** The pass of the decimal exponential is as close to every longer sum of the series. */
  lemma LongPass(r: nat, sum: int, more: nat)
    requires r < Weighted.LN2
    requires var s := Weighted.ExpState(r, Weighted.EXP_TERMS - 1); sum == s.pos - s.neg
    ensures -79.3 <= sum as real - SCALE * Polynomial(ExpExact, r as real / SCALE, 24 + more) <= 79.3
  {
    DecError.ExpPassIsClose(r);
    LongSum(sum as real, r as real / SCALE, more);
  }

  lemma LongSum(v: real, x: real, more: nat)
    requires 0.0 <= x <= 0.6932 && -79.2 <= v - SCALE * Polynomial(ExpExact, x, 24) <= 79.2
    ensures -79.3 <= v - SCALE * Polynomial(ExpExact, x, 24 + more) <= 79.3
  {
    ExpTail(x, 3);
    ExpTail(x, 3 + more);
    CloseToLonger(v, Polynomial(ExpExact, x, 21), Polynomial(ExpExact, x, 24), Polynomial(ExpExact, x, 24 + more));
  }

  lemma CloseToLonger(v: real, base: real, short: real, long: real)
    requires -79.2 <= v - SCALE * short <= 79.2
    requires -0.0002 <= UNIT * (short - base) <= 0.0002 && -0.0002 <= UNIT * (long - base) <= 0.0002
    ensures -79.3 <= v - SCALE * long <= 79.3
  {
    var d := long - short;
    assert -0.0004 <= UNIT * d <= 0.0004;
    Smaller(d);
    assert SCALE * long == SCALE * short + SCALE * d;
  }

  lemma Smaller(d: real)
    requires -0.0004 <= UNIT * d <= 0.0004
    ensures -0.0004 <= SCALE * d <= 0.0004
  {
    assert SCALE == 1000000000000000000.0 && UNIT >= SCALE;
  }

  // --------------------------------------- the exponentials, without the stored ln 2

  /** Coefficients between -1 and 1. */
  ghost predicate Bounded(a: nat -> real, n: nat) {
    forall i :: 0 <= i <= n ==> -1.0 <= a(i) <= 1.0
  }

  predicate Near(e: real, bound: real) {
    -bound <= e <= bound
  }

  lemma NearProduct(e: real, small: real, x: real, bound: real)
    requires Near(e, small) && Near(x, bound)
    ensures Near(e * x, small * bound)
  {
    if x >= 0.0 {
      Within(e, small, x, bound);
    } else {
      Within(e, small, -x, bound);
      assert e * -x == -(e * x);
    }
  }

  lemma {:induction false} SignedNestedBound(a: nat -> real, x: real, i: nat, n: nat)
    requires i <= n && Bounded(a, n) && Near(x, 0.7)
    ensures Near(Nested(a, x, i, n), 3.4)
    decreases n - i
  {
    if i < n {
      SignedNestedBound(a, x, i + 1, n);
      NearProduct(x, 0.7, Nested(a, x, i + 1, n), 3.4);
    }
  }

  /** Nearby arguments give nearby values, also below zero. */
  lemma {:induction false} SignedLipschitz(a: nat -> real, x: real, y: real, gap: real, i: nat, n: nat)
    requires i <= n && Bounded(a, n) && Near(x, 0.7) && Near(y, 0.7) && Near(x - y, gap)
    ensures Near(Nested(a, x, i, n) - Nested(a, y, i, n), 12.0 * gap)
    decreases n - i
  {
    if i < n {
      SignedNestedBound(a, x, i + 1, n);
      SignedLipschitz(a, x, y, gap, i + 1, n);
      SignedStep(a(i), x, y, gap, Nested(a, x, i + 1, n), Nested(a, y, i + 1, n), Nested(a, x, i, n), Nested(a, y, i, n));
    }
  }

  lemma SignedStep(c: real, x: real, y: real, gap: real, nx: real, ny: real, vx: real, vy: real)
    requires Near(x - y, gap) && Near(y, 0.7) && Near(nx, 3.4) && Near(nx - ny, 12.0 * gap)
    requires vx == c + x * nx && vy == c + y * ny
    ensures Near(vx - vy, 12.0 * gap)
  {
    ProductsDiffer(x, y, nx, ny);
    NearProduct(x - y, gap, nx, 3.4);
    NearProduct(nx - ny, 12.0 * gap, y, 0.7);
    var first, second := (x - y) * nx, (nx - ny) * y;
    assert vx - vy == first + second;
    assert Near(first, 3.4 * gap) && Near(second, 8.4 * gap);
  }

  lemma ExpBounded(n: nat)
    ensures Bounded(ExpExact, n)
  {
    forall i: nat | 0 <= i <= n
      ensures -1.0 <= ExpExact(i) <= 1.0
    {
      QuotientBetween(if i % 2 == 0 then 1.0 else -1.0, Factorial(i) as real, 1.0);
    }
  }

  lemma ExpLipschitz(x: real, y: real, gap: real, n: nat)
    requires Near(x, 0.7) && Near(y, 0.7) && Near(x - y, gap)
    ensures Near(Polynomial(ExpExact, x, n + 1) - Polynomial(ExpExact, y, n + 1), 12.0 * gap)
  {
    ExpBounded(n);
    SignedLipschitz(ExpExact, x, y, gap, 0, n);
    FromNested(ExpExact, x, n);
    FromNested(ExpExact, y, n);
  }

  /** A series that is close at one argument is nearly as close at a nearby one. */
  lemma ExpMoves(v: real, scale: real, slack: real, x: real, y: real, k: real, n: nat, near: real, exact: real)
    requires near == Polynomial(ExpExact, x, n + 1) && exact == Polynomial(ExpExact, y, n + 1)
    requires scale > 0.0 && Near(v - scale * near, slack)
    requires Near(x, 0.7) && Near(y, 0.7) && Near(scale * (x - y), 0.5 * k)
    ensures Near(v - scale * exact, slack + 6.0 * k)
  {
    var gap := Unscale(scale, x - y, 0.5 * k);
    ExpLipschitz(x, y, gap, n);
    AddMove(v, scale, slack, near, exact, k, gap);
  }

  lemma Unscale(scale: real, d: real, bound: real) returns (q: real)
    requires scale > 0.0 && Near(scale * d, bound)
    ensures q * scale == bound && Near(d, q) && q == bound / scale
  {
    q := bound / scale;
    assert q * scale == bound;
    NotAbove(d, q, scale);
    NotAbove(-d, q, scale);
  }

  lemma NotAbove(d: real, q: real, scale: real)
    requires scale > 0.0 && scale * d <= q * scale
    ensures d <= q
  {
    if d > q {
      Cancel(d, q, scale);
    }
  }

  lemma AddMove(v: real, scale: real, slack: real, near: real, exact: real, k: real, gap: real)
    requires scale > 0.0 && Near(v - scale * near, slack) && Near(near - exact, 12.0 * gap) && gap * scale == 0.5 * k
    ensures Near(v - scale * exact, slack + 6.0 * k)
  {
    var d := near - exact;
    NearProduct(d, 12.0 * gap, scale, scale);
    assert 12.0 * gap * scale == 6.0 * k;
    assert d * scale == scale * near - scale * exact;
  }

  /** What is left of an argument after its multiples of ln 2, as a number. */
  function TrueRest(y: int, scale: real, k: nat, terms: nat): real
    requires scale > 0.0
  {
    y as real / scale - k as real * Ln2Series(terms)
  }

  /** The remainder the code keeps is within half a unit a shift of it. */
  lemma RestIsClose(y: int, k: nat, s: int, ln2: int, scale: real, exact: real, rest: real)
    requires scale >= 1000000000000000000.0 && y == k * ln2 + s && k <= 1000
    requires Near(ln2 as real - scale * exact, 0.5) && 0.0 <= s as real <= 0.6932 * scale
    requires rest == y as real / scale - k as real * exact
    ensures Near(scale * (s as real / scale - rest), 0.5 * k as real)
    ensures Near(s as real / scale, 0.7) && Near(rest, 0.7)
  {
    Shifts(k, ln2, scale, exact);
    RestNear(y as real, s as real, (k * ln2) as real, k as real * exact, 0.5 * k as real, scale, s as real / scale, rest);
  }

  lemma RestNear(y: real, s: real, stored: real, total: real, half: real, scale: real, x: real, rest: real)
    requires scale >= 1000000000000000000.0 && 0.0 <= half <= 500.0 && y == stored + s
    requires Near(stored - scale * total, half) && 0.0 <= s <= 0.6932 * scale
    requires x == s / scale && rest == y / scale - total
    ensures Near(scale * (x - rest), half) && Near(x, 0.7) && Near(rest, 0.7)
  {
    RestGap(y, s, scale, total, x, rest);
    Cancelled(scale, x, 0.6932);
    var gap := Unscale(scale, x - rest, half);
    TinyGap(half, scale);
  }

  lemma RestGap(y: real, s: real, scale: real, total: real, x: real, rest: real)
    requires scale > 0.0 && x == s / scale && rest == y / scale - total
    ensures x * scale == s && scale * (x - rest) == s - y + scale * total
  {
    var z := y / scale;
    assert x * scale == s && z * scale == y;
  }

  lemma Cancelled(scale: real, x: real, bound: real)
    requires scale > 0.0 && 0.0 <= x * scale <= bound * scale
    ensures 0.0 <= x <= bound
  {
    if x > bound {
      Cancel(x, bound, scale);
    } else if x < 0.0 {
      Cancel(0.0, x, scale);
    }
  }

  lemma TinyGap(gap: real, scale: real)
    requires 0.0 <= gap <= 500.0 && scale >= 1000000000000000000.0
    ensures gap / scale <= 0.001
  {
    QuotientBetween(gap, scale, 0.001);
  }

  /** The binary exponential of every argument below the cut-off, within one unit and
      4.91 and six a shift, shifted, of the series at what is truly left of the argument. */
  lemma BinExpIsClose(y: int, more: nat, terms: nat)
    requires 0 < y < EXP_ZERO_ABOVE
    ensures 0 <= y / LN2_62
    ensures var k := y / LN2_62;
            var scale := Pow2(k) as real;
            var exact, slack := UNIT * Polynomial(ExpExact, TrueRest(y, UNIT, k, 21 + terms), 21 + more), 4.91 + 6.0 * k as real;
            -1.0 - slack / scale <= ExpNeg(y) as real - exact / scale <= slack / scale
  {
    DivMod(y, LN2_62);
    var k, s := y / LN2_62, y % LN2_62;
    ExpNegIs(y);
    var v := Floored(ExpCoeff, s, 0, 20);
    BinPassAt(y, k, s, v, more, terms);
    ShiftedIsClose(v, Pow2(k), UNIT * Polynomial(ExpExact, TrueRest(y, UNIT, k, 21 + terms), 21 + more), 4.91 + 6.0 * k as real);
  }

  lemma BinPassAt(y: int, k: nat, s: int, v: int, more: nat, terms: nat)
    requires y == k * LN2_62 + s && 0 <= s < LN2_62 && k <= 100 && v == Floored(ExpCoeff, s, 0, 20)
    ensures Near(v as real - UNIT * Polynomial(ExpExact, TrueRest(y, UNIT, k, 21 + terms), 21 + more), 4.91 + 6.0 * k as real)
  {
    StoredLn2(terms);
    RestIsClose(y, k, s, LN2_62, UNIT, Ln2Series(21 + terms), TrueRest(y, UNIT, k, 21 + terms));
    BinPassMoves(v, k, s, s as real / UNIT, TrueRest(y, UNIT, k, 21 + terms), 20 + more);
  }

  lemma BinPassMoves(v: int, k: nat, s: int, x: real, rest: real, n: nat)
    requires 0 <= s < LN2_62 && v == Floored(ExpCoeff, s, 0, 20) && x == s as real / UNIT && n >= 20
    requires Near(x, 0.7) && Near(rest, 0.7) && Near(UNIT * (x - rest), 0.5 * k as real)
    ensures Near(v as real - UNIT * Polynomial(ExpExact, rest, n + 1), 4.91 + 6.0 * k as real)
  {
    BinPass(v, s, x, n);
    ExpMoves(v as real, UNIT, 4.91, x, rest, k as real, n, Polynomial(ExpExact, x, n + 1), Polynomial(ExpExact, rest, n + 1));
  }

  lemma BinPass(v: int, s: int, x: real, n: nat)
    requires 0 <= s < LN2_62 && v == Floored(ExpCoeff, s, 0, 20) && x == s as real / UNIT && n >= 20
    ensures Near(v as real - UNIT * Polynomial(ExpExact, x, n + 1), 4.91)
  {
    ExpPassIsClose(s);
    ExpTail(x, n - 20);
    BinSum(v as real, Polynomial(ExpExact, x, 21), Polynomial(ExpExact, x, n + 1));
  }

  lemma BinSum(v: real, short: real, long: real)
    requires -4.9 <= v - UNIT * short <= 4.9 && -0.0002 <= UNIT * (long - short) <= 0.0002
    ensures Near(v - UNIT * long, 4.91)
  {
  }

  /** The same of the decimal exponential, whose cut-off is at 128 shifts. */
  lemma DecExpIsClose(y: nat, more: nat, terms: nat)
    requires 0 < y && y / Weighted.LN2 < 128
    ensures 0 <= y / Weighted.LN2
    ensures var k := y / Weighted.LN2;
            var scale := Pow2(k) as real;
            var exact, slack := SCALE * Polynomial(ExpExact, TrueRest(y, SCALE, k, 21 + terms), 24 + more), 79.3 + 6.0 * k as real;
            -1.0 - slack / scale <= Weighted.Exp(y) as real - exact / scale <= slack / scale
  {
    DivMod(y, Weighted.LN2);
    var k, r := y / Weighted.LN2, y % Weighted.LN2;
    DecError.ExpIs(y);
    var s := Weighted.ExpState(r, Weighted.EXP_TERMS - 1);
    DecShifted(y, k, r, s.pos - s.neg, Pow2(k), more, terms);
  }

  lemma DecShifted(y: nat, k: nat, r: nat, v: int, p: int, more: nat, terms: nat)
    requires y == k * Weighted.LN2 + r && r < Weighted.LN2 && k <= 128 && p > 0
    requires var s := Weighted.ExpState(r, Weighted.EXP_TERMS - 1); v == s.pos - s.neg
    ensures var exact, slack := SCALE * Polynomial(ExpExact, TrueRest(y, SCALE, k, 21 + terms), 24 + more), 79.3 + 6.0 * k as real;
            -1.0 - slack / p as real <= (v / p) as real - exact / p as real <= slack / p as real
  {
    LongPass(r, v, more);
    DecPassAt(y, k, r, r as real / SCALE, v, more, terms);
    NearShifted(v, p, SCALE * Polynomial(ExpExact, TrueRest(y, SCALE, k, 21 + terms), 24 + more), 79.3 + 6.0 * k as real);
  }

  lemma NearShifted(v: int, p: int, exact: real, slack: real)
    requires p > 0 && Near(v as real - exact, slack)
    ensures -1.0 - slack / p as real <= (v / p) as real - exact / p as real <= slack / p as real
  {
    ShiftedIsClose(v, p, exact, slack);
  }

  lemma DecPassAt(y: nat, k: nat, r: nat, x: real, v: int, more: nat, terms: nat)
    requires y == k * Weighted.LN2 + r && r < Weighted.LN2 && k <= 128
    requires x == r as real / SCALE && Near(v as real - SCALE * Polynomial(ExpExact, x, 24 + more), 79.3)
    ensures Near(v as real - SCALE * Polynomial(ExpExact, TrueRest(y, SCALE, k, 21 + terms), 24 + more), 79.3 + 6.0 * k as real)
  {
    var rest := TrueRest(y, SCALE, k, 21 + terms);
    StoredLn2(terms);
    RestIsClose(y, k, r, Weighted.LN2, SCALE, Ln2Series(21 + terms), rest);
    DecPassMoves(v, k, r, x, rest, more);
  }

  lemma DecPassMoves(v: int, k: nat, r: nat, x: real, rest: real, more: nat)
    requires x == r as real / SCALE && Near(v as real - SCALE * Polynomial(ExpExact, x, 24 + more), 79.3)
    requires Near(x, 0.7) && Near(rest, 0.7) && Near(SCALE * (x - rest), 0.5 * k as real)
    ensures Near(v as real - SCALE * Polynomial(ExpExact, rest, 24 + more), 79.3 + 6.0 * k as real)
  {
    ExpMoves(v as real, SCALE, 79.3, x, rest, k as real, 23 + more, Polynomial(ExpExact, x, 24 + more), Polynomial(ExpExact, rest, 24 + more));
  }
}
