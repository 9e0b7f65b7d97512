/** The exponential of any argument, by halving: a series that is close to exp(-x) on
    [0, ln 2], halved once for every multiple of ln 2 taken off first. However long
    the series, the whole is continuous up to the little by which the series misses
    one half at ln 2. */
module ExpHalves {
  import opened Arithmetic
  import opened BinError
  import opened BinFixed
  import opened Horner
  import opened LongSeries

  /** How far a series of at least 21 terms is from one half at ln 2. */
  const JUMP: real := 0.0000000000000000013

  /** What is used of the series on [0, ln 2]. */
  ghost predicate Decays(f: real -> real, ln2: real) {
    && 0.693 <= ln2 <= 0.6932
    && f(0.0) == 1.0 && Near(f(ln2) - 0.5, JUMP)
    && (forall x :: 0.0 <= x <= ln2 ==> Near(f(x), 3.4))
    && (forall x, y :: 0.0 <= x <= y <= ln2 ==> Near(f(x) - f(y), 12.0 * (y - x)))
  }

  /** The multiples of ln 2 in an argument. */
  function Multiples(a: real, ln2: real): (k: nat)
    requires a >= 0.0 && ln2 > 0.0
    ensures k as real * ln2 <= a < (k as real + 1.0) * ln2
  {
    var q := a / ln2;
    FloorTimes(a, ln2, q, q.Floor);
    q.Floor
  }

  lemma FloorTimes(a: real, ln2: real, q: real, k: int)
    requires a >= 0.0 && ln2 > 0.0 && q == a / ln2 && k as real <= q < k as real + 1.0
    ensures k >= 0 && k as real * ln2 <= a < (k as real + 1.0) * ln2
  {
    assert q * ln2 == a;
    if q < 0.0 {
      Cancel(0.0, q, ln2);
    }
    MulLe(k as real, q, ln2);
    Cancel(k as real + 1.0, q, ln2);
  }

  lemma MultiplesUnique(a: real, ln2: real, k: nat)
    requires a >= 0.0 && ln2 > 0.0 && k as real * ln2 <= a < (k as real + 1.0) * ln2
    ensures Multiples(a, ln2) == k
  {
    OneOnly(a, ln2, k, Multiples(a, ln2));
  }

  lemma OneOnly(a: real, ln2: real, k: nat, j: nat)
    requires ln2 > 0.0 && k as real * ln2 <= a < (k as real + 1.0) * ln2
    requires j as real * ln2 <= a < (j as real + 1.0) * ln2
    ensures j == k
  {
    assert (k as real + 1.0) * ln2 == k as real * ln2 + ln2 && (j as real + 1.0) * ln2 == j as real * ln2 + ln2;
    NotBefore(k, j, ln2, k as real * ln2, j as real * ln2, a, a);
    NotBefore(j, k, ln2, j as real * ln2, k as real * ln2, a, a);
  }

  lemma Ordered(j: nat, k: nat, ln2: real, m': real, m: real)
    requires j < k && ln2 > 0.0 && m == k as real * ln2 && m' == j as real * ln2
    ensures m' + ln2 <= m
  {
    MulLe(j as real + 1.0, k as real, ln2);
    assert (j as real + 1.0) * ln2 == m' + ln2;
  }

  function Halved(f: real -> real, ln2: real, a: real): real
    requires a >= 0.0 && ln2 > 0.0
  {
    HalvedBy(f, a - Multiples(a, ln2) as real * ln2, Multiples(a, ln2))
  }

  function HalvedBy(f: real -> real, x: real, k: nat): real {
    f(x) / Pow2(k) as real
  }

  // --------------------------------------------------------------- continuity

  lemma HalfOf(k: nat)
    ensures Pow2(k) as real >= 1.0 && Pow2(k + 1) as real == 2.0 * Pow2(k) as real
  {
  }

  lemma Rests(a: real, ln2: real, k: nat)
    requires a >= 0.0 && ln2 > 0.0 && k == Multiples(a, ln2)
    ensures 0.0 <= a - k as real * ln2 < ln2
  {
    assert (k as real + 1.0) * ln2 == k as real * ln2 + ln2;
  }

  /** The parts of one halving: the multiples taken off, and what is left. */
  predicate Parts(f: real -> real, ln2: real, a: real, k: nat, m: real, x: real, p: real, v: real)
  {
    m == k as real * ln2 && x == a - m && 0.0 <= x < ln2 && p == Pow2(k) as real >= 1.0 && v * p == f(x)
  }

  lemma PartsOf(f: real -> real, ln2: real, a: real) returns (k: nat, m: real, x: real, p: real)
    requires a >= 0.0 && ln2 > 0.0
    ensures k == Multiples(a, ln2) && Parts(f, ln2, a, k, m, x, p, Halved(f, ln2, a))
  {
    k := Multiples(a, ln2);
    Rests(a, ln2, k);
    m, p := k as real * ln2, Pow2(k) as real;
    x := a - m;
    HalfOf(k);
    assert Halved(f, ln2, a) == HalvedBy(f, a - Multiples(a, ln2) as real * ln2, Multiples(a, ln2));
    assert x == a - Multiples(a, ln2) as real * ln2;
    assert HalvedBy(f, a - Multiples(a, ln2) as real * ln2, Multiples(a, ln2)) == HalvedBy(f, x, k);
    Requotient(Halved(f, ln2, a), f(x), p);
  }

  lemma Requotient(v: real, n: real, p: real)
    requires p > 0.0 && v == n / p
    ensures v * p == n
  {
  }

  /** A difference of two quotients by the one divisor. */
  lemma Divided(u: real, v: real, p: real, d: real, bound: real)
    requires p >= 1.0 && (u - v) * p == d && Near(d, bound)
    ensures Near(u - v, bound)
  {
    AtMost(u - v, p, bound);
    Negated(u - v, p);
    assert v - u == -(u - v);
    AtMost(v - u, p, bound);
  }

  lemma Negated(e: real, p: real)
    ensures -e * p == -(e * p)
  {
  }

  lemma AtMost(e: real, p: real, bound: real)
    requires p >= 1.0 && bound >= 0.0 && e * p <= bound
    ensures e <= bound
  {
    MulLe(1.0, p, bound);
    if e > bound {
      Cancel(e, bound, p);
    }
  }

  lemma SameStep(f: real -> real, ln2: real, a: real, b: real, x: real, y: real, p: real, u: real, v: real)
    requires Decays(f, ln2) && 0.0 <= x <= y <= ln2 && y - x == b - a
    requires p >= 1.0 && u * p == f(x) && v * p == f(y)
    ensures Near(u - v, 12.0 * (b - a))
  {
    assert Near(f(x) - f(y), 12.0 * (y - x));
    assert (u - v) * p == f(x) - f(y);
    Divided(u, v, p, f(x) - f(y), 12.0 * (b - a));
  }

  lemma NextStep(f: real -> real, ln2: real, a: real, b: real, x: real, y: real, p: real, u: real, v: real)
    requires Decays(f, ln2) && 0.0 <= x <= ln2 && 0.0 <= y <= ln2 && ln2 - x + y == b - a
    requires p >= 1.0 && u * p == f(x) && v * (2.0 * p) == f(y)
    ensures Near(u - v, 12.0 * (b - a) + JUMP)
  {
    assert Near(f(x) - f(ln2), 12.0 * (ln2 - x)) && Near(f(0.0) - f(y), 12.0 * (y - 0.0));
    var d := f(x) - f(y) / 2.0;
    assert v * p == f(y) / 2.0;
    assert (u - v) * p == d;
    Divided(u, v, p, d, 12.0 * (b - a) + JUMP);
  }

  lemma BoundedPart(f: real -> real, ln2: real, x: real, p: real, u: real)
    requires Decays(f, ln2) && 0.0 <= x <= ln2 && p >= 1.0 && u * p == f(x)
    ensures Near(u, 3.4)
  {
    Divided(u, 0.0, p, f(x), 3.4);
  }

  lemma FarGap(k: nat, j: nat, ln2: real, m: real, m': real, a: real, b: real)
    requires j >= k + 2 && ln2 >= 0.0 && m == k as real * ln2 && m' == j as real * ln2 && a < m + ln2 && m' <= b
    ensures b - a >= ln2
  {
    MulLe((k + 2) as real, j as real, ln2);
    assert (k + 2) as real * ln2 == m + 2.0 * ln2;
  }

  lemma NextGap(k: nat, j: nat, ln2: real, m: real, m': real, p: real, p': real)
    requires j == k + 1 && m == k as real * ln2 && m' == j as real * ln2 && p == Pow2(k) as real && p' == Pow2(j) as real
    ensures m' == m + ln2 && p' == 2.0 * p
  {
    HalfOf(k);
  }

  lemma NotBefore(k: nat, j: nat, ln2: real, m: real, m': real, a: real, b: real)
    requires ln2 > 0.0 && m == k as real * ln2 && m' == j as real * ln2 && m <= a <= b < m' + ln2
    ensures k <= j
  {
    if j < k {
      Ordered(j, k, ln2, m', m);
    }
  }

  lemma OrderedMove(f: real -> real, ln2: real, a: real, b: real)
    requires Decays(f, ln2) && 0.0 <= a <= b
    ensures Near(Halved(f, ln2, a) - Halved(f, ln2, b), 12.0 * (b - a) + JUMP)
  {
    var k, m, x, p := PartsOf(f, ln2, a);
    var j, m', y, p' := PartsOf(f, ln2, b);
    Joined(f, ln2, a, b, k, m, x, p, Halved(f, ln2, a), j, m', y, p', Halved(f, ln2, b));
  }

  lemma Joined(f: real -> real, ln2: real, a: real, b: real, k: nat, m: real, x: real, p: real, u: real,
               j: nat, m': real, y: real, p': real, v: real)
    requires Decays(f, ln2) && 0.0 <= a <= b && Parts(f, ln2, a, k, m, x, p, u) && Parts(f, ln2, b, j, m', y, p', v)
    ensures Near(u - v, 12.0 * (b - a) + JUMP)
  {
    Related(ln2, a, b, k, m, p, j, m', p');
    ByParts(f, ln2, a, b, k, m, x, p, u, j, m', y, p', v);
  }

  /** How the multiples taken off two arguments are related. */
  predicate Relation(ln2: real, a: real, b: real, k: nat, m: real, p: real, j: nat, m': real, p': real) {
    && k <= j
    && (j == k ==> m' == m && p' == p)
    && (j == k + 1 ==> m' == m + ln2 && p' == 2.0 * p)
    && (j >= k + 2 ==> b - a >= ln2)
  }

  lemma Related(ln2: real, a: real, b: real, k: nat, m: real, p: real, j: nat, m': real, p': real)
    requires ln2 > 0.0 && m == k as real * ln2 && m' == j as real * ln2 && p == Pow2(k) as real && p' == Pow2(j) as real
    requires m <= a <= b < m' + ln2 && a < m + ln2 && m' <= b
    ensures Relation(ln2, a, b, k, m, p, j, m', p')
  {
    NotBefore(k, j, ln2, m, m', a, b);
    if j == k + 1 {
      NextGap(k, j, ln2, m, m', p, p');
    } else if j >= k + 2 {
      FarGap(k, j, ln2, m, m', a, b);
    }
  }

  lemma ByParts(f: real -> real, ln2: real, a: real, b: real, k: nat, m: real, x: real, p: real, u: real,
                j: nat, m': real, y: real, p': real, v: real)
    requires Decays(f, ln2) && 0.0 <= a <= b && Relation(ln2, a, b, k, m, p, j, m', p')
    requires x == a - m && 0.0 <= x < ln2 && p >= 1.0 && u * p == f(x)
    requires y == b - m' && 0.0 <= y < ln2 && p' >= 1.0 && v * p' == f(y)
    ensures Near(u - v, 12.0 * (b - a) + JUMP)
  {
    if j == k {
      SameStep(f, ln2, a, b, x, y, p, u, v);
    } else if j == k + 1 {
      NextStep(f, ln2, a, b, x, y, p, u, v);
    } else {
      BoundedPart(f, ln2, x, p, u);
      BoundedPart(f, ln2, y, p', v);
      Apart(u, v, b - a);
    }
  }

  lemma Apart(u: real, v: real, gap: real)
    requires Near(u, 3.4) && Near(v, 3.4) && gap >= 0.693
    ensures Near(u - v, 12.0 * gap + JUMP)
  {
  }

  /** Nearby arguments have nearby exponentials, wherever their multiples change. */
  lemma HalvedMoves(f: real -> real, ln2: real, a: real, b: real, gap: real)
    requires Decays(f, ln2) && a >= 0.0 && b >= 0.0 && Near(a - b, gap)
    ensures Near(Halved(f, ln2, a) - Halved(f, ln2, b), 12.0 * gap + JUMP)
  {
    if a <= b {
      OrderedMove(f, ln2, a, b);
    } else {
      OrderedMove(f, ln2, b, a);
    }
  }

  // ------------------------------------------------------------------ the series

  /** A decimal just below ln 2. */
  const LN2_BELOW: real := 0.6931471805599453094

  lemma Ln2Is(l: nat)
    requires l >= 21
    ensures LN2_BELOW <= Ln2Series(l) <= LN2_BELOW + 0.0000000000000000001
  {
    NinthNested(l - 1);
    assert 1.0 / 3.0 * (1.0 / 3.0) == 1.0 / 9.0;
    TwoThirdsOf(Polynomial(AtanhExact, 1.0 / 9.0, l), Ln2Series(l));
  }

  lemma TwoThirdsOf(p: real, ln2: real)
    requires 1.0397207708399179641 <= p <= 1.03972077083991796424 && ln2 == 2.0 * (1.0 / 3.0) * p
    ensures LN2_BELOW <= ln2 <= LN2_BELOW + 0.0000000000000000001
  {
  }

  /** One level of the nesting there. */
  predicate ExpNests(a: nat -> real, v: nat -> real, i: nat) {
    v(i) == a(i) + LN2_BELOW * v(i + 1)
  }

  lemma ExpInner(a: nat -> real, v: nat -> real)
    requires a(10) == 1.0 / 3628800.0 && a(11) == -1.0 / 39916800.0 && a(12) == 1.0 / 479001600.0 && a(13) == -1.0 / 6227020800.0
    requires a(14) == 1.0 / 87178291200.0 && a(15) == -1.0 / 1307674368000.0 && a(16) == 1.0 / 20922789888000.0 && a(17) == -1.0 / 355687428096000.0
    requires a(18) == 1.0 / 6402373705728000.0 && a(19) == -1.0 / 121645100408832000.0 && a(20) == 1.0 / 2432902008176640000.0
    requires v(20) == a(20) && forall i :: 10 <= i < 20 ==> ExpNests(a, v, i)
    ensures 0.000000259160474038733127 <= v(10) <= 0.000000259160474038733128
  {
    assert ExpNests(a, v, 10) && ExpNests(a, v, 11) && ExpNests(a, v, 12) && ExpNests(a, v, 13) && ExpNests(a, v, 14);
    assert ExpNests(a, v, 15) && ExpNests(a, v, 16) && ExpNests(a, v, 17) && ExpNests(a, v, 18) && ExpNests(a, v, 19);
  }

  lemma ExpOuter(a: nat -> real, v: nat -> real)
    requires a(0) == 1.0 / 1.0 && a(1) == -1.0 / 1.0 && a(2) == 1.0 / 2.0 && a(3) == -1.0 / 6.0
    requires a(4) == 1.0 / 24.0 && a(5) == -1.0 / 120.0 && a(6) == 1.0 / 720.0 && a(7) == -1.0 / 5040.0
    requires a(8) == 1.0 / 40320.0 && a(9) == -1.0 / 362880.0
    requires 0.000000259160474038733127 <= v(10) <= 0.000000259160474038733128 && forall i :: 0 <= i < 10 ==> ExpNests(a, v, i)
    ensures 0.5 <= v(0) <= 0.50000000000000000001
  {
    assert ExpNests(a, v, 0) && ExpNests(a, v, 1) && ExpNests(a, v, 2) && ExpNests(a, v, 3) && ExpNests(a, v, 4);
    assert ExpNests(a, v, 5) && ExpNests(a, v, 6) && ExpNests(a, v, 7) && ExpNests(a, v, 8) && ExpNests(a, v, 9);
  }

  lemma LowCoefficients(a: nat -> real)
    requires forall i: nat {:trigger a(i)} :: a(i) == ExpExact(i)
    ensures a(0) == 1.0 / 1.0 && a(1) == -1.0 / 1.0 && a(2) == 1.0 / 2.0 && a(3) == -1.0 / 6.0
    ensures a(4) == 1.0 / 24.0 && a(5) == -1.0 / 120.0 && a(6) == 1.0 / 720.0 && a(7) == -1.0 / 5040.0
    ensures a(8) == 1.0 / 40320.0 && a(9) == -1.0 / 362880.0
  {
    Factorials();
  }

  lemma HighCoefficients(a: nat -> real)
    requires forall i: nat {:trigger a(i)} :: a(i) == ExpExact(i)
    ensures a(10) == 1.0 / 3628800.0 && a(11) == -1.0 / 39916800.0 && a(12) == 1.0 / 479001600.0 && a(13) == -1.0 / 6227020800.0
    ensures a(14) == 1.0 / 87178291200.0 && a(15) == -1.0 / 1307674368000.0 && a(16) == 1.0 / 20922789888000.0 && a(17) == -1.0 / 355687428096000.0
    ensures a(18) == 1.0 / 6402373705728000.0 && a(19) == -1.0 / 121645100408832000.0 && a(20) == 1.0 / 2432902008176640000.0
  {
    Factorials();
  }

  lemma HalfAtLn2()
    ensures 0.5 <= Polynomial(ExpExact, LN2_BELOW, 21) <= 0.50000000000000000001
  {
    HalfLevels((i: nat) => ExpExact(i), (i: nat) => if i <= 20 then Nested(ExpExact, LN2_BELOW, i, 20) else 0.0);
    FromNested(ExpExact, LN2_BELOW, 20);
  }

  lemma HalfLevels(a: nat -> real, v: nat -> real)
    requires forall i: nat {:trigger a(i)} :: a(i) == ExpExact(i)
    requires forall i: nat {:trigger v(i)} :: i <= 20 ==> v(i) == Nested(ExpExact, LN2_BELOW, i, 20)
    ensures 0.5 <= Nested(ExpExact, LN2_BELOW, 0, 20) <= 0.50000000000000000001
  {
    forall i | 0 <= i < 20
      ensures ExpNests(a, v, i)
    {
      ExpLevel(v(i), v(i + 1), i, 20);
    }
    ExpLast(v(20), 20);
    LowCoefficients(a);
    HighCoefficients(a);
    ExpInner(a, v);
    ExpOuter(a, v);
  }

  lemma ExpLevel(here: real, next: real, i: nat, n: nat)
    requires i < n && here == Nested(ExpExact, LN2_BELOW, i, n) && next == Nested(ExpExact, LN2_BELOW, i + 1, n)
    ensures here == ExpExact(i) + LN2_BELOW * next
  {
  }

  lemma ExpLast(here: real, n: nat)
    requires here == Nested(ExpExact, LN2_BELOW, n, n)
    ensures here == ExpExact(n)
  {
  }

  /** Every longer sum is next to one half at every longer sum of ln 2. */
  lemma HalfAtEveryLn2(ln2: real, n: nat)
    requires n >= 21 && LN2_BELOW <= ln2 <= LN2_BELOW + 0.0000000000000000001
    ensures Near(Polynomial(ExpExact, ln2, n) - 0.5, JUMP)
  {
    var half, short := HalfAtEach(ln2);
    TailFrom(ln2, n, short);
    AddUp(half, short, Polynomial(ExpExact, ln2, n));
  }

  lemma TailFrom(x: real, n: nat, short: real)
    requires n >= 21 && 0.0 <= x <= 0.6932 && short == Polynomial(ExpExact, x, 21)
    ensures -0.0002 <= UNIT * (Polynomial(ExpExact, x, n) - short) <= 0.0002
  {
    ExpTail(x, n - 21);
  }

  lemma HalfAtEach(ln2: real) returns (half: real, short: real)
    requires LN2_BELOW <= ln2 <= LN2_BELOW + 0.0000000000000000001
    ensures short == Polynomial(ExpExact, ln2, 21)
    ensures 0.5 <= half <= 0.50000000000000000001 && Near(short - half, 12.0 * 0.0000000000000000001)
  {
    half, short := Polynomial(ExpExact, LN2_BELOW, 21), Polynomial(ExpExact, ln2, 21);
    HalfAtLn2();
    NearLn2(ln2, 20);
  }

  lemma NearLn2(ln2: real, n: nat)
    requires LN2_BELOW <= ln2 <= LN2_BELOW + 0.0000000000000000001
    ensures Near(Polynomial(ExpExact, ln2, n + 1) - Polynomial(ExpExact, LN2_BELOW, n + 1), 12.0 * 0.0000000000000000001)
  {
    ExpLipschitz(ln2, LN2_BELOW, 0.0000000000000000001, n);
  }

  lemma AddUp(half: real, short: real, long: real)
    requires 0.5 <= half <= 0.50000000000000000001 && Near(short - half, 12.0 * 0.0000000000000000001)
    requires -0.0002 <= UNIT * (long - short) <= 0.0002
    ensures Near(long - 0.5, JUMP)
  {
  }

  lemma OneAtZero(n: nat)
    requires n >= 1
    ensures Polynomial(ExpExact, 0.0, n) == 1.0
  {
    FromNested(ExpExact, 0.0, n - 1);
    NestedAtZero(n - 1);
  }

  lemma NestedAtZero(n: nat)
    ensures Nested(ExpExact, 0.0, 0, n) == 1.0
  {
    assert Factorial(0) == 1 && ExpExact(0) == 1.0;
    if n > 0 {
      var rest := Nested(ExpExact, 0.0, 1, n);
      assert 0.0 * rest == 0.0;
    }
  }

  lemma SeriesBound(x: real, n: nat)
    requires n >= 1 && Near(x, 0.7)
    ensures Near(Polynomial(ExpExact, x, n), 3.4)
  {
    ExpBounded(n - 1);
    SignedNestedBound(ExpExact, x, 0, n - 1);
    FromNested(ExpExact, x, n - 1);
  }

  lemma SeriesDecays(f: real -> real, ln2: real, n: nat)
    requires n >= 21 && LN2_BELOW <= ln2 <= LN2_BELOW + 0.0000000000000000001
    requires forall x {:trigger f(x)} :: f(x) == Polynomial(ExpExact, x, n)
    ensures Decays(f, ln2)
  {
    OneAtZero(n);
    HalfAtEveryLn2(ln2, n);
    forall x | 0.0 <= x <= ln2
      ensures Near(f(x), 3.4)
    {
      SeriesBound(x, n);
    }
    forall x, y | 0.0 <= x <= y <= ln2
      ensures Near(f(x) - f(y), 12.0 * (y - x))
    {
      ExpLipschitz(x, y, y - x, n - 1);
    }
  }

  // --------------------------------------------------------- the exponential itself

  /** exp(-e) by n terms, with ln 2 by l terms; an exponent that is not positive counts as zero. */
  function ExpOf(e: real, n: nat, l: nat): real
    requires l >= 21
  {
    Ln2Is(l);
    Halved((x: real) => Polynomial(ExpExact, x, n), Ln2Series(l), Clamp(e))
  }

  function Clamp(e: real): (c: real)
    ensures c >= 0.0
  {
    if e < 0.0 then 0.0 else e
  }

  /** It moves no more than its argument, times a constant, up to the jump. */
  lemma ExpOfMoves(d: real, e: real, gap: real, n: nat, l: nat)
    requires n >= 21 && l >= 21 && Near(d - e, gap)
    ensures Near(ExpOf(d, n, l) - ExpOf(e, n, l), 12.0 * gap + JUMP)
  {
    Ln2Is(l);
    var f := (x: real) => Polynomial(ExpExact, x, n);
    SeriesDecays(f, Ln2Series(l), n);
    HalvedMoves(f, Ln2Series(l), Clamp(d), Clamp(e), gap);
  }

  /** Where the multiples are known. */
  lemma ExpOfIs(k: nat, x: real, a: real, n: nat, l: nat)
    requires l >= 21 && 0.0 <= x < Ln2Series(l) && a == k as real * Ln2Series(l) + x
    ensures ExpOf(a, n, l) == Polynomial(ExpExact, x, n) / Pow2(k) as real
  {
    Ln2Is(l);
    HalvedIs((y: real) => Polynomial(ExpExact, y, n), Ln2Series(l), k as real * Ln2Series(l), a, k, x);
  }

  lemma HalvedIs(f: real -> real, ln2: real, m: real, a: real, k: nat, x: real)
    requires ln2 > 0.0 && m == k as real * ln2 && a == m + x && 0.0 <= x < ln2
    ensures a >= 0.0 && Clamp(a) == a && Halved(f, ln2, a) == f(x) / Pow2(k) as real
  {
    NotNegativeProduct(k as real, ln2);
    assert (k as real + 1.0) * ln2 == m + ln2;
    MultiplesUnique(a, ln2, k);
    assert a - Multiples(a, ln2) as real * ln2 == x;
    assert Halved(f, ln2, a) == HalvedBy(f, a - Multiples(a, ln2) as real * ln2, Multiples(a, ln2));
  }

  lemma NotNegativeProduct(a: real, b: real)
    requires a >= 0.0 && b >= 0.0
    ensures a * b >= 0.0
  {
  }
}
