/** How far the whole logarithm and exponential of src/binfixed.rs are from the exact
    rational series: the truncated ratio, the floored square, the floored pass and
    the final shift together. */
module BinError {
  import opened Arithmetic
  import opened BinFixed
  import opened Horner

  const UNIT: real := ONE62 as real

  // ------------------------------------------------ polynomials move little

  /** Coefficients between 0 and 1. */
  ghost predicate Unital(a: nat -> real, n: nat) {
    forall i :: 0 <= i <= n ==> 0.0 <= a(i) <= 1.0
  }

  lemma {:induction false} NestedBound(a: nat -> real, x: real, i: nat, n: nat, sigma: real, bound: real)
    requires i <= n && Unital(a, n) && 0.0 <= x <= sigma && 1.0 <= 1.0 + sigma * bound <= bound
    ensures 0.0 <= Nested(a, x, i, n) <= bound
    decreases n - i
  {
    if i < n {
      NestedBound(a, x, i + 1, n, sigma, bound);
      TermBound(a(i), x, Nested(a, x, i + 1, n), sigma, bound);
    }
  }

  lemma TermBound(c: real, x: real, rest: real, sigma: real, bound: real)
    requires 0.0 <= c <= 1.0 && 0.0 <= x <= sigma && 0.0 <= rest <= bound && 1.0 + sigma * bound <= bound
    ensures 0.0 <= c + x * rest <= bound
  {
    var term, wider, widest := x * rest, sigma * rest, sigma * bound;
    NonNegative(x, rest);
    MulLe(x, sigma, rest);
    MulLe(rest, bound, sigma);
    assert term <= wider <= widest && 1.0 + widest <= bound;
    assert c + term <= bound;
  }

  lemma NonNegative(a: real, b: real)
    requires 0.0 <= a
    ensures 0.0 <= b ==> 0.0 <= a * b
    ensures b < 0.0 ==> a * b <= 0.0
  {
  }

  /** Nearby arguments give nearby values. */
  lemma {:induction false} NestedLipschitz(a: nat -> real, x: real, y: real, gap: real, i: nat, n: nat, sigma: real, bound: real, slope: real, move: real)
    requires i <= n && Unital(a, n) && 0.0 <= x <= sigma && 0.0 <= y <= sigma
    requires 1.0 <= 1.0 + sigma * bound <= bound && bound + sigma * slope <= slope
    requires -gap <= x - y <= gap && move == slope * gap >= 0.0
    ensures -move <= Nested(a, x, i, n) - Nested(a, y, i, n) <= move
    decreases n - i
  {
    if i < n {
      NestedBound(a, x, i + 1, n, sigma, bound);
      NestedLipschitz(a, x, y, gap, i + 1, n, sigma, bound, slope, move);
      TermLipschitz(a(i), x, y, gap, Nested(a, x, i + 1, n), Nested(a, y, i + 1, n), Nested(a, x, i, n), Nested(a, y, i, n),
                    sigma, bound, slope, move);
    }
  }

  lemma TermLipschitz(c: real, x: real, y: real, gap: real, nx: real, ny: real, vx: real, vy: real, sigma: real, bound: real, slope: real, move: real)
    requires -gap <= x - y <= gap && 0.0 <= y <= sigma && 0.0 <= nx <= bound
    requires vx == c + x * nx && vy == c + y * ny
    requires -move <= nx - ny <= move == slope * gap && bound + sigma * slope <= slope
    ensures -move <= vx - vy <= move
  {
    var first, second := (x - y) * nx, (nx - ny) * y;
    var atMost := gap * bound + slope * gap * sigma;
    ProductsDiffer(x, y, nx, ny);
    Within(x - y, gap, nx, bound);
    Within(nx - ny, move, y, sigma);
    MulLe(bound + sigma * slope, slope, gap);
    Spread(bound, sigma, slope, gap);
    assert vx - vy == first + second;
    assert -atMost <= first + second <= atMost <= move;
  }

  lemma ProductsDiffer(x: real, y: real, nx: real, ny: real)
    ensures x * nx - y * ny == (x - y) * nx + (nx - ny) * y
  {
  }

  lemma Spread(bound: real, sigma: real, slope: real, gap: real)
    ensures (bound + sigma * slope) * gap == gap * bound + slope * gap * sigma
  {
  }

  /** A small number times a bounded one. */
  lemma Within(e: real, small: real, x: real, bound: real)
    requires -small <= e <= small && 0.0 <= x <= bound
    ensures -(small * bound) <= e * x <= small * bound
  {
    MulLe(e, small, x);
    MulLe(-small, e, x);
    MulLe(x, bound, small);
  }

  // ------------------------------------------------------- more terms

  /** From the n-th on the coefficients are at most c. */
  ghost predicate SmallFrom(a: nat -> real, n: nat, c: real) {
    forall i :: n <= i ==> -c <= a(i) <= c
  }

  /** One step of a sum that moves no more than a bound shrinks. */
  predicate Shrinks(sum: nat -> real, bound: nat -> real, j: nat) {
    -(bound(j) - bound(j + 1)) <= sum(j + 1) - sum(j) <= bound(j) - bound(j + 1)
  }

  lemma {:induction false} Telescope(sum: nat -> real, bound: nat -> real, n: nat, more: nat)
    requires forall j :: n <= j ==> Shrinks(sum, bound, j)
    ensures -(bound(n) - bound(n + more)) <= sum(n + more) - sum(n) <= bound(n) - bound(n + more)
    ensures bound(n + more) >= 0.0 ==> -bound(n) <= sum(n + more) - sum(n) <= bound(n)
  {
    if more > 0 {
      Telescope(sum, bound, n, more - 1);
      assert Shrinks(sum, bound, n + more - 1);
    }
  }

  lemma {:induction false} PowMono(x: real, sigma: real, n: nat)
    requires 0.0 <= x <= sigma
    ensures 0.0 <= Pow(x, n) <= Pow(sigma, n)
  {
    if n > 0 {
      PowMono(x, sigma, n - 1);
      NonNegative(Pow(x, n - 1), x);
      MulLe(x, sigma, Pow(x, n - 1));
      MulLe(Pow(x, n - 1), Pow(sigma, n - 1), sigma);
    }
  }

  lemma TermWithin(a: real, c: real, p: real, bound: real)
    requires -c <= a <= c && 0.0 <= p <= bound
    ensures -(c * bound) <= a * p <= c * bound
  {
    Within(a, c, p, bound);
  }

  lemma NextRest(c: real, k: real, sigma: real, p: real, p': real)
    requires k == c + k * sigma && p' == p * sigma
    ensures k * p - k * p' == c * p
  {
    assert k * p' == k * sigma * p;
    assert k * p == (c + k * sigma) * p == c * p + k * sigma * p;
  }

  lemma TermShrinks(a: nat -> real, x: real, sigma: real, c: real, k: real, j: nat)
    requires -c <= a(j) <= c && 0.0 <= x <= sigma && k == c + k * sigma
    ensures var gap, rest := Polynomial(a, x, j + 1) - Polynomial(a, x, j), k * Pow(sigma, j) - k * Pow(sigma, j + 1);
            -rest <= gap <= rest
  {
    PowMono(x, sigma, j);
    TermWithin(a(j), c, Pow(x, j), Pow(sigma, j));
    NextRest(c, k, sigma, Pow(sigma, j), Pow(sigma, j + 1));
  }

  /** What all the terms from the n-th on can add, however many: `k` is at least
      c + c sigma + c sigma^2 + .... */
  lemma LongerSum(a: nat -> real, x: real, sigma: real, c: real, k: real, n: nat, more: nat)
    requires SmallFrom(a, n, c) && 0.0 <= x <= sigma && k == c + k * sigma && k >= 0.0
    ensures -(k * Pow(sigma, n)) <= Polynomial(a, x, n + more) - Polynomial(a, x, n) <= k * Pow(sigma, n)
  {
    LongerSumNamed((j: nat) => Polynomial(a, x, j), (j: nat) => k * Pow(sigma, j), a, x, sigma, c, k, n, more);
  }

  lemma LongerSumNamed(sum: nat -> real, bound: nat -> real, a: nat -> real, x: real, sigma: real, c: real, k: real, n: nat, more: nat)
    requires SmallFrom(a, n, c) && 0.0 <= x <= sigma && k == c + k * sigma && k >= 0.0
    requires forall j: nat {:trigger sum(j)} :: sum(j) == Polynomial(a, x, j)
    requires forall j: nat {:trigger bound(j)} :: bound(j) == k * Pow(sigma, j)
    ensures -(k * Pow(sigma, n)) <= Polynomial(a, x, n + more) - Polynomial(a, x, n) <= k * Pow(sigma, n)
  {
    LongerSumOf(sum, bound, a, x, sigma, c, k, n, more);
    Renamed(sum(n), sum(n + more), bound(n), Polynomial(a, x, n), Polynomial(a, x, n + more), k * Pow(sigma, n));
  }

  lemma Renamed(a: real, b: real, c: real, a': real, b': real, c': real)
    requires -c <= b - a <= c && a == a' && b == b' && c == c'
    ensures -c' <= b' - a' <= c'
  {
  }

  lemma LongerSumOf(sum: nat -> real, bound: nat -> real, a: nat -> real, x: real, sigma: real, c: real, k: real, n: nat, more: nat)
    requires SmallFrom(a, n, c) && 0.0 <= x <= sigma && k == c + k * sigma && k >= 0.0
    requires forall j: nat {:trigger sum(j)} :: sum(j) == Polynomial(a, x, j)
    requires forall j: nat {:trigger bound(j)} :: bound(j) == k * Pow(sigma, j)
    ensures -bound(n) <= sum(n + more) - sum(n) <= bound(n)
  {
    forall j | n <= j
      ensures Shrinks(sum, bound, j)
    {
      OneShrinks(sum, bound, a, x, sigma, c, k, j);
    }
    PositiveBound(bound, k, sigma, n + more);
    Telescope(sum, bound, n, more);
  }

  lemma PositiveBound(bound: nat -> real, k: real, sigma: real, j: nat)
    requires k >= 0.0 && sigma >= 0.0 && forall i: nat {:trigger bound(i)} :: bound(i) == k * Pow(sigma, i)
    ensures bound(j) >= 0.0
  {
    PowMono(0.0, sigma, j);
    NonNegative(k, Pow(sigma, j));
  }

  lemma OneShrinks(sum: nat -> real, bound: nat -> real, a: nat -> real, x: real, sigma: real, c: real, k: real, j: nat)
    requires -c <= a(j) <= c && 0.0 <= x <= sigma && k == c + k * sigma
    requires forall i: nat {:trigger sum(i)} :: sum(i) == Polynomial(a, x, i)
    requires forall i: nat {:trigger bound(i)} :: bound(i) == k * Pow(sigma, i)
    ensures Shrinks(sum, bound, j)
  {
    TermShrinks(a, x, sigma, c, k, j);
  }

  // ------------------------------------------------------------ the logarithm

  /** The exact ratio (m - 1) / (m + 1). */
  function Tau(m: int): real
    requires m > 0
  {
    (m - ONE62) as real / (m + ONE62) as real
  }

  /** The first n terms of 2 atanh(tau), exactly. */
  function TwiceAtanhSeries(tau: real, n: nat): real {
    2.0 * tau * Polynomial(AtanhExact, tau * tau, n)
  }

  /** As many as the code has. */
  function ExactTwiceAtanh(tau: real): real {
    TwiceAtanhSeries(tau, 13)
  }

  lemma TauBound(m: int)
    requires SQRT2_HALF_62 <= m < 2 * SQRT2_HALF_62
    ensures -0.1718 <= Tau(m) <= 0.1718
  {
    var n, d := (m - ONE62) as real, (m + ONE62) as real;
    assert -0.1718 * d <= n <= 0.1718 * d;
    QuotientBetween(n, d, 0.1718);
  }

  lemma QuotientBetween(n: real, d: real, b: real)
    requires d > 0.0 && -b * d <= n <= b * d
    ensures -b <= n / d <= b
  {
    var q := n / d;
    assert q * d == n;
    if q > b {
      Cancel(q, b, d);
    }
    if q < -b {
      Cancel(-b, q, d);
    }
  }

  lemma Cancel(a: real, b: real, d: real)
    requires a > b && d > 0.0
    ensures a * d > b * d
  {
  }

  /** Division that truncates is within one unit on either side of zero. */
  lemma TruncWithin(n: int, d: int)
    requires d > 0
    ensures -1.0 <= TruncDiv(n, d) as real - n as real / d as real <= 1.0
  {
    var t := TruncDiv(n, d);
    TruncLeaves(n, d);
    assert (t * d) as real == t as real * d as real;
    UnitQuotient(t as real, n as real, d as real);
  }

  lemma UnitQuotient(t: real, n: real, d: real)
    requires d > 0.0 && -d <= t * d - n <= d
    ensures -1.0 <= t - n / d <= 1.0
  {
    var q := n / d;
    assert q * d == n;
    var gap := t - q;
    assert gap * d == t * d - n;
    if gap > 1.0 {
      Cancel(gap, 1.0, d);
    }
    if gap < -1.0 {
      Cancel(-1.0, gap, d);
    }
  }

  lemma TruncLeaves(n: int, d: int)
    requires d > 0
    ensures -d <= TruncDiv(n, d) * d - n <= d
  {
    if n >= 0 {
      DivMod(n, d);
    } else {
      DivMod(-n, d);
      assert -((-n) / d) * d == -(d * ((-n) / d));
    }
  }

  lemma SplitQuotient(t: real, n: real, d: real)
    requires d > 0.0
    ensures (t * d - n) / d == t - n / d
  {
    var q := n / d;
    assert q * d == n;
    assert (t * d - n) / d * d == (t - q) * d;
  }

  lemma RatioIsClose(m: int)
    requires SQRT2_HALF_62 <= m < 2 * SQRT2_HALF_62
    ensures -1.0 <= Ratio(m) as real - UNIT * Tau(m) <= 1.0
  {
    TruncWithin((m - ONE62) * ONE62, m + ONE62);
    ScaledQuotient(m - ONE62, m + ONE62);
  }

  lemma ScaledQuotient(n: int, d: int)
    requires d > 0
    ensures (n * ONE62) as real / d as real == UNIT * (n as real / d as real)
  {
    assert (n * ONE62) as real == n as real * UNIT;
    var q := n as real / d as real;
    assert q * d as real == n as real;
    assert UNIT * q * d as real == n as real * UNIT;
  }

  /** The square of the truncated ratio, floored, against the exact square. */
  lemma SquareIsClose(t: int, tau: real)
    requires -T_MAX <= t <= T_MAX && -0.1718 <= tau <= 0.1718
    requires -1.0 <= t as real - UNIT * tau <= 1.0
    ensures var gap := 1.35 / UNIT; -gap <= (t * t / ONE62) as real / UNIT - tau * tau <= gap
    ensures 0.0 <= tau * tau <= 0.03
  {
    var x := t as real / UNIT;
    FloorWithin(t * t);
    assert (t * t) as real == t as real * t as real;
    SquareOfQuotient(t as real);
    SquaresDiffer(x, tau, 1.0 / UNIT);
    Squared(tau);
    SquareSum((t * t / ONE62) as real, t as real * t as real, x * x, tau * tau);
  }

  lemma SquareSum(floored: real, square: real, near: real, exact: real)
    requires square / UNIT - 1.0 <= floored <= square / UNIT && square / UNIT == UNIT * near
    requires -0.35 / UNIT <= near - exact <= 0.35 / UNIT
    ensures var gap := 1.35 / UNIT; -gap <= floored / UNIT - exact <= gap
  {
  }

  lemma SquareOfQuotient(t: real)
    ensures t * t / UNIT / UNIT == t / UNIT * (t / UNIT)
  {
    var x := t / UNIT;
    assert t == x * UNIT;
    assert t * t == x * x * UNIT * UNIT;
  }

  lemma SquaresDiffer(x: real, y: real, gap: real)
    requires -gap <= x - y <= gap && -0.172 <= x <= 0.172 && -0.172 <= y <= 0.172
    ensures -(0.344 * gap) <= x * x - y * y <= 0.344 * gap
  {
    assert x * x - y * y == (x - y) * (x + y);
    if x + y >= 0.0 {
      Within(x - y, gap, x + y, 0.344);
    } else {
      Within(x - y, gap, -(x + y), 0.344);
    }
  }

  lemma Squared(tau: real)
    requires -0.1718 <= tau <= 0.1718
    ensures 0.0 <= tau * tau <= 0.03
  {
    if tau >= 0.0 {
      SquareOfSmall(tau);
    } else {
      SquareOfSmall(-tau);
      assert tau * tau == (-tau) * (-tau);
    }
  }

  lemma SquareOfSmall(r: real)
    requires 0.0 <= r <= 0.1718
    ensures 0.0 <= r * r <= 0.03
  {
    MulLe(0.0, r, r);
    MulLe(r, 0.1718, r);
    assert r * r <= 0.1718 * r;
    assert 0.1718 * r <= 0.03;
  }

  lemma AtanhUnital()
    ensures Unital(AtanhExact, 12)
  {
    forall i: nat | 0 <= i <= 12
      ensures 0.0 <= AtanhExact(i) <= 1.0
    {
      QuotientBetween(1.0, (2 * i + 1) as real, 1.0);
    }
  }

  /** A floored pass at one argument against the exact polynomial at another. */
  lemma FlooredMoves(c: nat -> int, a: nat -> real, u: int, y: real, n: nat, gap: real, sigma: real, pass: real, bound: real, slope: real, move: real)
    requires Rounded(c, a, n) && Unital(a, n)
    requires 0 <= u && u as real <= sigma * UNIT && 0.0 <= y <= sigma
    requires pass * sigma + 1.5 <= pass && pass >= 0.5
    requires 1.0 <= 1.0 + sigma * bound <= bound && bound + sigma * slope <= slope
    requires -gap <= u as real / UNIT - y <= gap && move == slope * gap >= 0.0
    ensures 0.0 <= Polynomial(a, y, n + 1) <= bound
    ensures var slack := pass + UNIT * move; -slack <= Floored(c, u, 0, n) as real - UNIT * Polynomial(a, y, n + 1) <= slack
  {
    var x := u as real / UNIT;
    FlooredIsClose(c, a, u, n, sigma, pass);
    PolynomialMoves(a, x, y, n, gap, sigma, bound, slope, move);
    AddGap(Floored(c, u, 0, n) as real, Polynomial(a, x, n + 1), Polynomial(a, y, n + 1), pass, move);
  }

  lemma PolynomialMoves(a: nat -> real, x: real, y: real, n: nat, gap: real, sigma: real, bound: real, slope: real, move: real)
    requires Unital(a, n) && 0.0 <= x <= sigma && 0.0 <= y <= sigma && -gap <= x - y <= gap
    requires 1.0 <= 1.0 + sigma * bound <= bound && bound + sigma * slope <= slope && move == slope * gap >= 0.0
    ensures 0.0 <= Polynomial(a, y, n + 1) <= bound
    ensures -move <= Polynomial(a, x, n + 1) - Polynomial(a, y, n + 1) <= move
  {
    NestedBound(a, y, 0, n, sigma, bound);
    NestedLipschitz(a, x, y, gap, 0, n, sigma, bound, slope, move);
    FromNested(a, x, n);
    FromNested(a, y, n);
  }

  lemma AddGap(v: real, near: real, exact: real, pass: real, gap: real)
    requires -pass <= v - UNIT * near <= pass && -gap <= near - exact <= gap
    ensures -(pass + UNIT * gap) <= v - UNIT * exact <= pass + UNIT * gap
  {
  }

  /** The series at the floored square against the exact series at the exact square. */
  lemma SeriesIsClose(u: int, square: real)
    requires 0 <= u <= U_MAX && 0.0 <= square <= 0.03
    requires -(1.35 / UNIT) <= u as real / UNIT - square <= 1.35 / UNIT
    ensures -3.02 <= Floored(AtanhCoeff, u, 0, 12) as real - UNIT * Polynomial(AtanhExact, square, 13) <= 3.02
    ensures 0.0 <= Polynomial(AtanhExact, square, 13) <= 1.04
  {
    AtanhTable();
    AtanhUnital();
    var gap := 1.35 / UNIT;
    var move := 1.08 * gap;
    assert UNIT * move <= 1.46;
    FlooredMoves(AtanhCoeff, AtanhExact, u, square, 12, gap, 0.03, 1.55, 1.04, 1.08, move);
  }

  lemma FromNested(a: nat -> real, x: real, n: nat)
    ensures Polynomial(a, x, n + 1) == Nested(a, x, 0, n)
  {
    NestedIsPolynomial(a, x, 0, n);
    assert Pow(x, 0) == 1.0 && Polynomial(a, x, 0) == 0.0;
  }

  /** The last product and its shift. */
  lemma ProductIsClose(t: int, p: int, tau: real, exact: real)
    requires -1.0 <= t as real - UNIT * tau <= 1.0 && -T_MAX <= t <= T_MAX
    requires -3.02 <= p as real - UNIT * exact <= 3.02 && 0.0 <= exact <= 1.04
    ensures -4.2 <= (t * p / TWO_POW_61) as real - UNIT * (2.0 * tau * exact) <= 3.2
  {
    var x, e := t as real / UNIT, p as real - UNIT * exact;
    HalfFloorWithin(t * p);
    assert (t * p) as real == t as real * p as real;
    SplitProduct(t as real, p as real, tau, exact);
    Within(x - tau, 1.0 / UNIT, exact, 1.04);
    if x >= 0.0 {
      Within(e, 3.02, x, 0.1718);
    } else {
      Within(e, 3.02, -x, 0.1718);
    }
  }

  lemma NamedProduct(t: int, p: int, tau: real, exact: real, ln: int, exactLn: real)
    requires -1.0 <= t as real - UNIT * tau <= 1.0 && -T_MAX <= t <= T_MAX
    requires -3.02 <= p as real - UNIT * exact <= 3.02 && 0.0 <= exact <= 1.04
    requires ln == t * p / TWO_POW_61 && exactLn == 2.0 * tau * exact
    ensures -4.2 <= ln as real - UNIT * exactLn <= 3.2
  {
    ProductIsClose(t, p, tau, exact);
  }

  lemma HalfFloorWithin(v: int)
    ensures 2.0 * (v as real / UNIT) - 1.0 <= (v / TWO_POW_61) as real <= 2.0 * (v as real / UNIT)
  {
    var q, r := v / TWO_POW_61, v % TWO_POW_61;
    assert v == q * TWO_POW_61 + r;
    assert v as real == q as real * TWO_POW_61 as real + r as real;
  }

  lemma SplitProduct(t: real, p: real, tau: real, exact: real)
    ensures var x, e := t / UNIT, p - UNIT * exact;
            2.0 * (t * p / UNIT) - UNIT * (2.0 * tau * exact) == 2.0 * (e * x) + 2.0 * UNIT * ((x - tau) * exact)
  {
    var x := t / UNIT;
    assert t == x * UNIT;
    assert t * p / UNIT == x * p by {
      assert x * p * UNIT == t * p;
    }
    assert (p - UNIT * exact) * x == p * x - UNIT * exact * x;
  }

  /** A stored ratio within one unit of the exact one, on the reduction's window. */
  predicate RatioNear(t: int, tau: real) {
    && -T_MAX <= t <= T_MAX && -0.1718 <= tau <= 0.1718
    && -1.0 <= t as real - UNIT * tau <= 1.0
  }

  lemma SeriesOf(t: int, tau: real, p: int, exact: real)
    requires RatioNear(t, tau)
    requires p == Floored(AtanhCoeff, t * t / ONE62, 0, 12) && exact == Polynomial(AtanhExact, tau * tau, 13)
    ensures -3.02 <= p as real - UNIT * exact <= 3.02 && 0.0 <= exact <= 1.04
  {
    SquareBound(t);
    SquareIsClose(t, tau);
    SeriesIsClose(t * t / ONE62, tau * tau);
  }

  lemma TwiceAtanhIsClose(t: int, tau: real)
    requires RatioNear(t, tau)
    ensures -4.2 <= TwiceAtanh(t) as real - UNIT * ExactTwiceAtanh(tau) <= 3.2
  {
    var p, exact := Floored(AtanhCoeff, t * t / ONE62, 0, 12), Polynomial(AtanhExact, tau * tau, 13);
    SeriesOf(t, tau, p, exact);
    NamedProduct(t, p, tau, exact, TwiceAtanh(t), ExactTwiceAtanh(tau));
  }

  lemma RatioIsNear(m: int)
    requires SQRT2_HALF_62 <= m < 2 * SQRT2_HALF_62
    ensures RatioNear(Ratio(m), Tau(m))
  {
    RatioBound(m);
    RatioIsClose(m);
    TauBound(m);
  }

  /** On the whole window the mantissa's logarithm is within 4.2 units of 2^62 times
      the exact 13-term series at the exact ratio. */
  lemma LnMantissaIsClose(m: int)
    requires SQRT2_HALF_62 <= m < 2 * SQRT2_HALF_62
    ensures -4.2 <= LnMantissa(m) as real - UNIT * ExactTwiceAtanh(Tau(m)) <= 3.2
  {
    RatioIsNear(m);
    TwiceAtanhIsClose(Ratio(m), Tau(m));
  }

  /** For every argument in (0, 1]: the logarithm against its shift count times the
      stored ln 2 less the exact series of its mantissa. */
  lemma NegLogIsClose(x: int)
    requires 0 < x <= ONE62
    ensures var (m, k) := Normalised(x, SQRT2_HALF_62);
            -3.2 <= NegLog62(x) as real - ((k * LN2_62) as real - UNIT * ExactTwiceAtanh(Tau(m))) <= 4.2
  {
    NegLogBound(x);
    var (m, k) := Normalised(x, SQRT2_HALF_62);
    LnMantissaIsClose(m);
    assert NegLog62(x) as real == (k * LN2_62) as real - LnMantissa(m) as real;
  }

  // ---------------------------------------------------------- the exponential

  /** A floor of a quotient that is itself only known to within `slack`. */
  lemma ShiftedIsClose(v: int, p: int, exact: real, slack: real)
    requires p > 0 && -slack <= v as real - exact <= slack
    ensures -1.0 - slack / p as real <= (v / p) as real - exact / p as real <= slack / p as real
  {
    var q, r := v / p, v % p;
    assert v == q * p + r && 0 <= r < p;
    assert (q * p) as real == q as real * p as real;
    ShiftedReal(q as real, r as real, p as real, v as real, exact, slack);
  }

  lemma ShiftedReal(q: real, r: real, d: real, v: real, exact: real, slack: real)
    requires d > 0.0 && v == q * d + r && 0.0 <= r <= d && -slack <= v - exact <= slack
    ensures -1.0 - slack / d <= q - exact / d <= slack / d
  {
    var e := q * d - exact;
    QuotientOfGap(q, exact, e, -1.0 * d - slack, d);
    QuotientOfGap(q, exact, e, slack, d);
    SplitQuotient(-1.0, slack, d);
  }

  lemma QuotientOfGap(q: real, exact: real, e: real, bound: real, d: real)
    requires d > 0.0 && e == q * d - exact
    ensures e <= bound ==> q - exact / d <= bound / d
    ensures e >= bound ==> q - exact / d >= bound / d
  {
    var x, y := exact / d, bound / d;
    assert x * d == exact && y * d == bound;
    assert (q - x) * d == e;
    if q - x > y {
      Cancel(q - x, y, d);
    } else if q - x < y {
      Cancel(y, q - x, d);
    }
  }

  /** Past 63 shifts nothing is left anyway. */
  lemma ExpNegIs(y: int)
    requires 0 < y < EXP_ZERO_ABOVE
    ensures ExpNeg(y) == Floored(ExpCoeff, y % LN2_62, 0, 20) / Pow2(y / LN2_62)
  {
    DivMod(y, LN2_62);
    if y / LN2_62 >= 63 {
      ExpPass(y % LN2_62, 0);
      AllShiftedOut(Floored(ExpCoeff, y % LN2_62, 0, 20), y / LN2_62);
    }
  }

  lemma AllShiftedOut(v: int, k: nat)
    requires 0 <= v <= ONE62 && k >= 63
    ensures v / Pow2(k) == 0
  {
    SmallPowers();
    Pow2Mono(63, k);
    assert Pow2(63) == 2 * Pow2(62);
    DivUnique(v, Pow2(k), 0, v);
  }

  lemma PassThenShift(s: int, k: nat, r: int)
    requires 0 <= s < LN2_62 && r == Floored(ExpCoeff, s, 0, 20) / Pow2(k)
    ensures var x, scale := s as real / UNIT, Pow2(k) as real;
            -1.0 - 4.9 / scale <= r as real - UNIT * Polynomial(ExpExact, x, 21) / scale <= 4.9 / scale
  {
    ExpPassIsClose(s);
    ShiftedIsClose(Floored(ExpCoeff, s, 0, 20), Pow2(k), UNIT * Polynomial(ExpExact, s as real / UNIT, 21), 4.9);
  }

  /** For every argument between zero and the cut-off: the exponential is within one
      unit and 4.9 shifted units of 2^62 times the exact 21-term series of the
      remainder, shifted by the quotient. */
  lemma ExpNegIsClose(y: int)
    requires 0 < y < EXP_ZERO_ABOVE
    ensures var k, x := y / LN2_62, (y % LN2_62) as real / UNIT;
            var scale := Pow2(k) as real;
            -1.0 - 4.9 / scale <= ExpNeg(y) as real - UNIT * Polynomial(ExpExact, x, 21) / scale <= 4.9 / scale
  {
    DivMod(y, LN2_62);
    ExpNegIs(y);
    PassThenShift(y % LN2_62, y / LN2_62, ExpNeg(y));
  }

  // --------------------------------------------------- against every longer sum

  /** Past the 13th term the atanh series adds next to nothing, however long it is. */
  lemma AtanhTail(q: real, more: nat)
    requires 0.0 <= q <= 0.03
    ensures -0.08 <= UNIT * (Polynomial(AtanhExact, q, 13 + more) - Polynomial(AtanhExact, q, 13)) <= 0.08
  {
    forall i: nat | 13 <= i
      ensures -1.0 <= AtanhExact(i) <= 1.0
    {
      QuotientBetween(1.0, (2 * i + 1) as real, 1.0);
    }
    LongerSum(AtanhExact, q, 0.03, 1.0, 1.0 / 0.97, 13, more);
    TinyPower();
  }

  lemma TinyPower()
    ensures Pow(0.03, 13) <= 0.000000000000000000016
  {
    assert Pow(0.03, 6) == 0.000000000729;
    assert Pow(0.03, 13) == 0.000000000729 * 0.03 * 0.03 * 0.03 * 0.03 * 0.03 * 0.03 * 0.03;
  }

  /** Past the 21st term so does the exponential series. */
  lemma ExpTail(x: real, more: nat)
    requires 0.0 <= x <= 0.6932
    ensures -0.0002 <= UNIT * (Polynomial(ExpExact, x, 21 + more) - Polynomial(ExpExact, x, 21)) <= 0.0002
  {
    forall i: nat | 21 <= i
      ensures -SMALL <= ExpExact(i) <= SMALL
    {
      FactorialFrom(i);
      SmallQuotient(Factorial(i) as real, if i % 2 == 0 then 1.0 else -1.0);
    }
    LongerSum(ExpExact, x, 0.6932, SMALL, SMALL / 0.3068, 21, more);
    SmallPower();
  }

  /** Just above 1 / 21!. */
  const SMALL: real := 0.00000000000000000002

  lemma {:induction false} FactorialFrom(i: nat)
    requires i >= 21
    ensures Factorial(i) >= 51_090_942_171_709_440_000
  {
    if i == 21 {
      Factorials();
    } else {
      FactorialFrom(i - 1);
      MulMono(1, i, Factorial(i - 1));
    }
  }

  lemma SmallQuotient(f: real, sign: real)
    requires f >= 51_090_942_171_709_440_000.0 && -1.0 <= sign <= 1.0
    ensures -SMALL <= sign / f <= SMALL
  {
    assert SMALL * f >= 1.0;
    QuotientBetween(sign, f, SMALL);
  }

  lemma SmallPower()
    ensures Pow(0.6932, 21) <= 0.0005
  {
    var p := Pow(0.6932, 7);
    assert Pow(0.6932, 3) <= 0.3332;
    assert Pow(0.6932, 5) <= 0.1602;
    assert p <= 0.077;
    assert Pow(0.6932, 9) <= 0.0371;
    assert Pow(0.6932, 11) <= 0.0179;
    assert Pow(0.6932, 13) <= 0.00861;
    assert Pow(0.6932, 15) <= 0.00414;
    assert Pow(0.6932, 17) <= 0.002;
    assert Pow(0.6932, 19) <= 0.000962;
  }

  /** So the logarithm is as close to every longer sum of the series, however many
      terms it has. */
  lemma LnMantissaIsCloseToAll(m: int, more: nat)
    requires SQRT2_HALF_62 <= m < 2 * SQRT2_HALF_62
    ensures -4.3 <= LnMantissa(m) as real - UNIT * TwiceAtanhSeries(Tau(m), 13 + more) <= 3.3
  {
    LnMantissaIsClose(m);
    TauBound(m);
    SeriesTail(Tau(m), more);
  }

  lemma SeriesTail(tau: real, more: nat)
    requires -0.1718 <= tau <= 0.1718
    ensures -0.03 <= UNIT * TwiceAtanhSeries(tau, 13 + more) - UNIT * ExactTwiceAtanh(tau) <= 0.03
  {
    Squared(tau);
    AtanhTail(tau * tau, more);
    ScaledTail(tau, Polynomial(AtanhExact, tau * tau, 13), Polynomial(AtanhExact, tau * tau, 13 + more),
               ExactTwiceAtanh(tau), TwiceAtanhSeries(tau, 13 + more));
  }

  lemma ScaledTail(tau: real, short: real, long: real, short': real, long': real)
    requires -0.1718 <= tau <= 0.1718 && -0.08 <= UNIT * (long - short) <= 0.08
    requires short' == 2.0 * tau * short && long' == 2.0 * tau * long
    ensures -0.03 <= UNIT * long' - UNIT * short' <= 0.03
  {
    var d := UNIT * (long - short);
    SmallShift(d, tau);
    var w := d * tau;
    assert UNIT * long' - UNIT * short' == 2.0 * w;
  }

  lemma SmallShift(d: real, tau: real)
    requires -0.08 <= d <= 0.08 && -0.1718 <= tau <= 0.1718
    ensures -0.014 <= d * tau <= 0.014
  {
    if tau >= 0.0 {
      Within(d, 0.08, tau, 0.1718);
    } else {
      Within(d, 0.08, -tau, 0.1718);
      assert d * -tau == -(d * tau);
    }
  }

  lemma NegLogIsCloseToAll(x: int, more: nat)
    requires 0 < x <= ONE62
    ensures var (m, k) := Normalised(x, SQRT2_HALF_62);
            -3.3 <= NegLog62(x) as real - ((k * LN2_62) as real - UNIT * TwiceAtanhSeries(Tau(m), 13 + more)) <= 4.3
  {
    NegLogBound(x);
    var (m, k) := Normalised(x, SQRT2_HALF_62);
    LnMantissaIsCloseToAll(m, more);
    assert NegLog62(x) as real == (k * LN2_62) as real - LnMantissa(m) as real;
  }
}
