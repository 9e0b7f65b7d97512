/** How far the whole logarithm and exponential of src/weighted.rs are from the exact
    rational series of as many terms: every product, every quotient and the final
    shift are floored. */
module DecError {
  import opened Arithmetic
  import opened BinError
  import opened Horner
  import opened Weighted
  import BinFixed

  const SCALE: real := ONE as real

  // ------------------------------------------------------------ the exponential

  /** x^i / i!. */
  function Term(x: real, i: nat): real {
    Pow(x, i) / BinFixed.Factorial(i) as real
  }

  lemma TermsFollow(x: real, i: nat)
    requires i > 0
    ensures Term(x, i) * i as real == Term(x, i - 1) * x
  {
    var f: int := BinFixed.Factorial(i - 1);
    assert BinFixed.Factorial(i) as real == i as real * f as real by {
      assert BinFixed.Factorial(i) == i * f;
    }
    QuotientOfProduct(Pow(x, i - 1), x, f as real, i as real);
  }

  lemma QuotientOfProduct(p: real, x: real, f: real, i: real)
    requires f > 0.0 && i > 0.0
    ensures i * f > 0.0 && p * x / (i * f) * i == p / f * x
  {
    var a, b := p / f, p * x / (i * f);
    assert a * f == p && b * (i * f) == p * x;
    assert b * i * f == a * x * f;
    SameProduct(b * i, a * x, f);
  }

  lemma SameProduct(a: real, b: real, d: real)
    requires d > 0.0 && a * d == b * d
    ensures a == b
  {
    if a > b {
      Cancel(a, b, d);
    } else if a < b {
      Cancel(b, a, d);
    }
  }

  /** The stored terms, one after the other, as the loop leaves them. */
  predicate IsTrace(t: seq<nat>, r: nat) {
    |t| > 0 && t[0] == ONE && forall j :: 0 < j < |t| ==> IsNext(t, r, j)
  }

  predicate IsNext(t: seq<nat>, r: nat, j: nat)
    requires 0 < j < |t|
  {
    t[j] == NextTerm(t[j - 1], r, j)
  }

  /** The alternating sum of stored terms. */
  function Stored(t: seq<nat>): int {
    if t == [] then 0
    else if |t| % 2 == 1 then Stored(t[..|t| - 1]) + t[|t| - 1]
    else Stored(t[..|t| - 1]) - t[|t| - 1]
  }

  lemma {:induction false} Trace(r: nat, n: nat) returns (t: seq<nat>)
    ensures |t| == n + 1 && IsTrace(t, r) && t[n] == ExpState(r, n).term
    ensures Stored(t) == ExpState(r, n).pos - ExpState(r, n).neg
  {
    if n == 0 {
      t := [ONE];
      assert t[..0] == [];
    } else {
      var before := Trace(r, n - 1);
      t := before + [NextTerm(before[n - 1], r, n)];
      LongerTrace(before, t, r);
      StoredNext(before, t[n], t);
      NextState(ExpState(r, n - 1), ExpState(r, n), r, n, Stored(before), Stored(t), t[n]);
    }
  }

  lemma LongerTrace(before: seq<nat>, t: seq<nat>, r: nat)
    requires IsTrace(before, r) && t == before + [NextTerm(before[|before| - 1], r, |before|)]
    ensures IsTrace(t, r)
  {
    forall j | 0 < j < |t|
      ensures IsNext(t, r, j)
    {
      assert j < |before| ==> IsNext(before, r, j);
    }
  }

  lemma StoredNext(before: seq<nat>, term: nat, t: seq<nat>)
    requires t == before + [term]
    ensures Stored(t) == if |t| % 2 == 1 then Stored(before) + term else Stored(before) - term
  {
    assert t[..|before|] == before;
  }

  lemma NextState(before: Series, after: Series, r: nat, n: nat, sum: int, sum': int, term: nat)
    requires n > 0 && term == NextTerm(before.term, r, n) && sum == before.pos - before.neg
    requires after == if n % 2 == 1 then Series(term, before.pos, before.neg + term) else Series(term, before.pos + term, before.neg)
    requires sum' == if (n + 1) % 2 == 1 then sum + term else sum - term
    ensures term == after.term && sum' == after.pos - after.neg
  {
  }

  /** The alternating sum of exact terms. */
  function Exact(e: nat -> real, n: nat): real {
    if n == 0 then 0.0
    else if n % 2 == 1 then Exact(e, n - 1) + e(n - 1)
    else Exact(e, n - 1) - e(n - 1)
  }

  /** Exact terms, each from the one before. */
  predicate Follows(e: nat -> real, x: real, j: nat) {
    j > 0 ==> e(j) * j as real == e(j - 1) * x
  }

  /** Each stored term is at most 3.3 units below the exact one. */
  lemma {:induction false} TermIsClose(e: nat -> real, t: seq<nat>, r: nat, x: real, n: nat)
    requires r < LN2 && x == r as real / SCALE && IsTrace(t, r) && n < |t|
    requires e(0) == 1.0 && forall j :: 0 <= j <= n ==> Follows(e, x, j)
    ensures 0.0 <= SCALE * e(n) - t[n] as real <= 3.3
  {
    if n > 0 {
      TermIsClose(e, t, r, x, n - 1);
      assert Follows(e, x, n) && IsNext(t, r, n);
      Slack(t[n - 1], r, x, n, t[n]);
      StepIsClose(e(n - 1), e(n), t[n - 1] as real, t[n] as real, x, n as real);
    }
  }

  lemma StepIsClose(exact: real, exact': real, before: real, after: real, x: real, i: real)
    requires i >= 1.0 && 0.0 <= x <= 0.6932
    requires exact' * i == exact * x && 0.0 <= before * x - i * after <= i
    requires 0.0 <= SCALE * exact - before <= 3.3
    ensures 0.0 <= SCALE * exact' - after <= 3.3
  {
    var e, e', rem := SCALE * exact - before, SCALE * exact' - after, before * x - i * after;
    Within(e, 3.3, x, 0.6932);
    NonNegative(e, x);
    Carried(exact, exact', before, after, x, i);
    var carried := e * x;
    assert 0.0 <= carried <= 2.3;
    Bounded(e', carried + rem, i);
  }

  lemma Carried(exact: real, exact': real, before: real, after: real, x: real, i: real)
    requires exact' * i == exact * x
    ensures (SCALE * exact' - after) * i == (SCALE * exact - before) * x + (before * x - i * after)
  {
    assert SCALE * exact' * i == SCALE * (exact * x);
  }

  lemma Bounded(e: real, product: real, i: real)
    requires i >= 1.0 && e * i == product && 0.0 <= product <= 2.3 + i
    ensures 0.0 <= e <= 3.3
  {
    if e > 3.3 {
      Cancel(e, 3.3, i);
    } else if e < 0.0 {
      Cancel(0.0, e, i);
    }
  }

  /** Two floors in a row lose less than the product of the divisors. */
  lemma FloorSlack(before: nat, r: nat, i: nat, after: nat)
    requires i > 0 && after == NextTerm(before, r, i)
    ensures 0 <= before * r - ONE * (i * after) <= ONE * i
  {
    var v := Mul(before, r);
    assert v == i * after + v % i;
    assert before * r == ONE * v + before * r % ONE;
  }

  lemma RealSlack(before: nat, r: nat, x: real, i: nat, after: nat)
    requires x == r as real / SCALE && 0 <= before * r - ONE * (i * after) <= ONE * i
    ensures 0.0 <= before as real * x - i as real * after as real <= i as real
  {
    assert (before * r) as real == before as real * r as real == SCALE * (before as real * x);
    assert (i * after) as real == i as real * after as real;
  }

  lemma Slack(before: nat, r: nat, x: real, i: nat, after: nat)
    requires i > 0 && x == r as real / SCALE && after == NextTerm(before, r, i)
    ensures 0.0 <= before as real * x - i as real * after as real <= i as real
  {
    FloorSlack(before, r, i, after);
    RealSlack(before, r, x, i, after);
  }

  lemma {:induction false} SumIsClose(e: nat -> real, t: seq<nat>, r: nat, x: real)
    requires r < LN2 && x == r as real / SCALE && IsTrace(t, r)
    requires e(0) == 1.0 && forall j :: 0 <= j < |t| ==> Follows(e, x, j)
    ensures -3.3 * |t| as real <= Stored(t) as real - SCALE * Exact(e, |t|) <= 3.3 * |t| as real
    decreases |t|
  {
    var n := |t| - 1;
    TermIsClose(e, t, r, x, n);
    if n == 0 {
      assert t[..0] == [] && Exact(e, 0) == 0.0;
    } else {
      var before := t[..n];
      forall j | 0 < j < |before|
        ensures IsNext(before, r, j)
      {
        assert IsNext(t, r, j);
      }
      SumIsClose(e, before, r, x);
      OneTermMore(Exact(e, n), e(n), Stored(before), t[n], |t|);
    }
  }

  lemma OneTermMore(exact: real, e: real, stored: int, t: nat, n: nat)
    requires n > 0 && 0.0 <= SCALE * e - t as real <= 3.3
    requires -3.3 * (n - 1) as real <= stored as real - SCALE * exact <= 3.3 * (n - 1) as real
    ensures -3.3 * n as real <= (stored + t) as real - SCALE * (exact + e) <= 3.3 * n as real
    ensures -3.3 * n as real <= (stored - t) as real - SCALE * (exact - e) <= 3.3 * n as real
  {
  }

  /** The j-th term of a sum is the exact one with its sign. */
  predicate Signed(e: nat -> real, of: nat -> real, j: nat) {
    of(j + 1) - of(j) == if j % 2 == 0 then e(j) else -e(j)
  }

  lemma {:induction false} ExactIs(e: nat -> real, of: nat -> real, n: nat)
    requires of(0) == 0.0 && forall j :: 0 <= j < n ==> Signed(e, of, j)
    ensures Exact(e, n) == of(n)
  {
    if n > 0 {
      ExactIs(e, of, n - 1);
      assert Signed(e, of, n - 1);
      assert n % 2 == 1 <==> (n - 1) % 2 == 0;
    }
  }

  /** A term of the polynomial is the exact one with its sign. */
  predicate SignedTerm(a: nat -> real, e: nat -> real, x: real, j: nat) {
    a(j) * Pow(x, j) == if j % 2 == 0 then e(j) else -e(j)
  }

  lemma ExactIsSeries(e: nat -> real, x: real, n: nat)
    requires forall j: nat :: e(j) == Term(x, j)
    ensures Exact(e, n) == Polynomial(BinFixed.ExpExact, x, n)
  {
    forall j | 0 <= j < n
      ensures SignedTerm(BinFixed.ExpExact, e, x, j)
    {
      SignedShare(Pow(x, j), BinFixed.Factorial(j) as real, j % 2 == 0, BinFixed.ExpExact(j) * Pow(x, j), e(j));
    }
    ExactAlong(BinFixed.ExpExact, e, (j: nat) => Polynomial(BinFixed.ExpExact, x, j), x, n);
  }

  lemma ExactAlong(a: nat -> real, e: nat -> real, of: nat -> real, x: real, n: nat)
    requires forall j :: 0 <= j < n ==> SignedTerm(a, e, x, j)
    requires forall j: nat {:trigger of(j)} :: of(j) == Polynomial(a, x, j)
    ensures Exact(e, n) == of(n)
  {
    forall j | 0 <= j < n
      ensures Signed(e, of, j)
    {
      assert SignedTerm(a, e, x, j);
      NextTerms(a, x, j);
    }
    ExactIs(e, of, n);
  }

  lemma NextTerms(a: nat -> real, x: real, j: nat)
    ensures Polynomial(a, x, j + 1) - Polynomial(a, x, j) == a(j) * Pow(x, j)
  {
  }

  lemma SignedShare(p: real, f: real, even: bool, step: real, e: real)
    requires f > 0.0 && step == (if even then 1.0 else -1.0) / f * p && e == p / f
    ensures step == if even then e else -e
  {
    var share := 1.0 / f;
    assert p / f == share * p;
    assert -1.0 / f == -share;
  }

  /** On every remainder the 24 floored terms are within 79.2 units of 1e18 times the
      exact series. */
  lemma ExpPassIsClose(r: nat)
    requires r < LN2
    ensures var s, exact := ExpState(r, EXP_TERMS - 1), SCALE * Polynomial(BinFixed.ExpExact, r as real / SCALE, EXP_TERMS);
            -79.2 <= (s.pos - s.neg) as real - exact <= 79.2
  {
    var x := r as real / SCALE;
    var t := Trace(r, EXP_TERMS - 1);
    TraceIsClose((i: nat) => Term(x, i), t, r, x);
  }

  lemma TraceIsClose(e: nat -> real, t: seq<nat>, r: nat, x: real)
    requires r < LN2 && x == r as real / SCALE && IsTrace(t, r) && forall j: nat :: e(j) == Term(x, j)
    ensures -3.3 * |t| as real <= Stored(t) as real - SCALE * Polynomial(BinFixed.ExpExact, x, |t|) <= 3.3 * |t| as real
  {
    forall j | 0 <= j < |t|
      ensures Follows(e, x, j)
    {
      ExactFollows(e, x, j);
    }
    assert Term(x, 0) == 1.0;
    SumIsClose(e, t, r, x);
    ExactIsSeries(e, x, |t|);
  }

  lemma ExactFollows(e: nat -> real, x: real, j: nat)
    requires forall i: nat :: e(i) == Term(x, i)
    ensures Follows(e, x, j)
  {
    if j > 0 {
      TermsFollow(x, j);
    }
  }

  /** For every positive argument: the exponential is within one unit and 79.2
      shifted units of 1e18 times the exact 24-term series of the remainder, shifted
      by the quotient. */
  lemma ExpIsClose(y: nat)
    requires y > 0
    ensures 0 <= y / LN2
    ensures var x, scale := (y % LN2) as real / SCALE, Pow2(y / LN2) as real;
            -1.0 - 79.2 / scale <= Exp(y) as real - SCALE * Polynomial(BinFixed.ExpExact, x, EXP_TERMS) / scale <= 79.2 / scale
  {
    DivMod(y, LN2);
    ExpIs(y);
    SumThenShift(y % LN2, y / LN2, Exp(y));
  }

  /** Past 128 shifts nothing is left anyway. */
  lemma ExpIs(y: nat)
    requires y > 0
    ensures var s, n := ExpState(y % LN2, EXP_TERMS - 1), y / LN2; 0 <= n && Exp(y) == (s.pos - s.neg) / Pow2(n)
  {
    DivMod(y, LN2);
    var s, n := ExpState(y % LN2, EXP_TERMS - 1), y / LN2;
    ExpStateBound(y % LN2, EXP_TERMS - 1);
    if n >= 128 {
      BinFixed.SmallPowers();
      Pow2Mono(60, n);
      DivUnique(s.pos - s.neg, Pow2(n), 0, s.pos - s.neg);
    }
  }

  lemma SumThenShift(r: nat, n: nat, out: int)
    requires r < LN2
    requires var s := ExpState(r, EXP_TERMS - 1); out == (s.pos - s.neg) / Pow2(n)
    ensures var x, scale := r as real / SCALE, Pow2(n) as real;
            -1.0 - 79.2 / scale <= out as real - SCALE * Polynomial(BinFixed.ExpExact, x, EXP_TERMS) / scale <= 79.2 / scale
  {
    ExpPassIsClose(r);
    var s := ExpState(r, EXP_TERMS - 1);
    ShiftedIsClose(s.pos - s.neg, Pow2(n), SCALE * Polynomial(BinFixed.ExpExact, r as real / SCALE, EXP_TERMS), 79.2);
  }

  // -------------------------------------------------------------- the logarithm

  /** The stored terms of the atanh series. */
  predicate IsAtanhTrace(t: seq<nat>, z: nat, z2: nat) {
    |t| > 0 && t[0] == z && forall j :: 0 < j < |t| ==> IsNextPower(t, z2, j)
  }

  predicate IsNextPower(t: seq<nat>, z2: nat, j: nat)
    requires 0 < j < |t|
  {
    t[j] == Mul(t[j - 1], z2)
  }

  /** The stored sum of the first terms, each divided by its odd number and floored. */
  function StoredSum(t: seq<nat>): nat {
    if |t| <= 1 then (if t == [] then 0 else t[0]) else StoredSum(t[..|t| - 1]) + Part(t[|t| - 1], 2 * |t| - 1)
  }

  lemma {:induction false} AtanhTrace(z: nat, z2: nat, n: nat) returns (t: seq<nat>)
    ensures |t| == n + 1 && IsAtanhTrace(t, z, z2) && (t[n], StoredSum(t)) == AtanhState(z, z2, n)
  {
    if n == 0 {
      t := [z];
    } else {
      var before := AtanhTrace(z, z2, n - 1);
      t := before + [Mul(before[n - 1], z2)];
      LongerAtanhTrace(before, t, z, z2);
      StoredSumNext(before, t[n], t);
      NextSum(AtanhState(z, z2, n - 1), AtanhState(z, z2, n), z2, n, StoredSum(before), StoredSum(t), t[n]);
    }
  }

  lemma LongerAtanhTrace(before: seq<nat>, t: seq<nat>, z: nat, z2: nat)
    requires IsAtanhTrace(before, z, z2) && t == before + [Mul(before[|before| - 1], z2)]
    ensures IsAtanhTrace(t, z, z2)
  {
    forall j | 0 < j < |t|
      ensures IsNextPower(t, z2, j)
    {
      assert j < |before| ==> IsNextPower(before, z2, j);
    }
  }

  lemma StoredSumNext(before: seq<nat>, next: nat, t: seq<nat>)
    requires before != [] && t == before + [next]
    ensures StoredSum(t) == StoredSum(before) + Part(next, 2 * |t| - 1)
  {
    assert t[..|before|] == before;
  }

  lemma NextSum(before: (nat, nat), after: (nat, nat), z2: nat, n: nat, sum: nat, sum': nat, next: nat)
    requires n > 0 && next == Mul(before.0, z2) && sum == before.1
    requires after == (next, before.1 + Part(next, 2 * n + 1)) && sum' == sum + Part(next, 2 * (n + 1) - 1)
    ensures (next, sum') == after
  {
  }

  /** Exact powers, each from the one before. */
  predicate Powers(f: nat -> real, q: real, j: nat) {
    j > 0 ==> f(j) == f(j - 1) * q
  }

  /** Each stored power is at most 1.8 units below the exact one, which stays below a third. */
  lemma {:induction false} PowerIsClose(f: nat -> real, t: seq<nat>, z: nat, z2: nat, q: real, n: nat)
    requires IsAtanhTrace(t, z, z2) && n < |t|
    requires 0.0 <= f(0) <= 0.3334 && 0.0 <= SCALE * f(0) - z as real <= 1.0
    requires 0.0 <= q <= 0.1112 && 0.0 <= q - z2 as real / SCALE <= 1.67 / SCALE
    requires forall j :: 0 <= j <= n ==> Powers(f, q, j)
    ensures 0.0 <= f(n) <= 0.3334 && 0.0 <= SCALE * f(n) - t[n] as real <= 1.8
  {
    if n > 0 {
      PowerIsClose(f, t, z, z2, q, n - 1);
      assert Powers(f, q, n) && IsNextPower(t, z2, n);
      ProductSlack(t[n - 1], z2, t[n]);
      PowerStep(f(n - 1), f(n), t[n - 1] as real, t[n] as real, z2 as real / SCALE, q);
    }
  }

  lemma ProductSlack(before: nat, z2: nat, after: nat)
    requires after == Mul(before, z2)
    ensures 0.0 <= before as real * (z2 as real / SCALE) - after as real <= 1.0
  {
    var n := before * z2;
    assert n == ONE * after + n % ONE;
    assert n as real == before as real * z2 as real == SCALE * (before as real * (z2 as real / SCALE));
  }

  lemma PowerStep(exact: real, exact': real, before: real, after: real, ratio: real, q: real)
    requires 0.0 <= exact <= 0.3334 && exact' == exact * q
    requires 0.0 <= q <= 0.1112 && 0.0 <= q - ratio <= 1.67 / SCALE
    requires 0.0 <= SCALE * exact - before <= 1.8 && before >= 0.0
    requires 0.0 <= before * ratio - after <= 1.0
    ensures 0.0 <= exact' <= 0.3334 && 0.0 <= SCALE * exact' - after <= 1.8
  {
    var e, gap := SCALE * exact - before, q - ratio;
    Within(e, 1.8, q, 0.1112);
    NonNegative(e, q);
    NonNegative(gap, before);
    GapTimes(gap, before);
    NonNegative(exact, q);
    Within(exact, 0.3334, q, 0.1112);
    SplitStep(exact, before, after, ratio, q);
    var first, second, third := e * q, gap * before, before * ratio - after;
    assert SCALE * exact' - after == first + second + third;
  }

  lemma GapTimes(gap: real, before: real)
    requires 0.0 <= gap <= 1.67 / SCALE && 0.0 <= before <= 0.3334 * SCALE
    ensures gap * before <= 0.56
  {
    MulLe(gap, 1.67 / SCALE, before);
    assert gap * before <= 1.67 / SCALE * before;
    assert 1.67 / SCALE * before <= 0.56;
  }

  lemma SplitStep(exact: real, before: real, after: real, ratio: real, q: real)
    ensures SCALE * (exact * q) - after == (SCALE * exact - before) * q + (q - ratio) * before + (before * ratio - after)
  {
    assert (SCALE * exact - before) * q == SCALE * (exact * q) - before * q;
    assert (q - ratio) * before == before * q - before * ratio;
  }

  /** The exact sum of the first terms over their odd numbers. */
  function ExactSum(f: nat -> real, n: nat): real {
    if n == 0 then 0.0 else ExactSum(f, n - 1) + f(n - 1) / (2 * n - 1) as real
  }

  /** Every floor is down, so the stored sum is at most 1.6 units a term below the exact one. */
  lemma {:induction false} AtanhSumIsClose(f: nat -> real, t: seq<nat>, z: nat, z2: nat, q: real)
    requires IsAtanhTrace(t, z, z2)
    requires 0.0 <= f(0) <= 0.3334 && 0.0 <= SCALE * f(0) - z as real <= 1.0
    requires 0.0 <= q <= 0.1112 && 0.0 <= q - z2 as real / SCALE <= 1.67 / SCALE
    requires forall j :: 0 <= j < |t| ==> Powers(f, q, j)
    ensures 0.0 <= SCALE * ExactSum(f, |t|) - StoredSum(t) as real <= 1.6 * |t| as real
    decreases |t|
  {
    var n := |t| - 1;
    if n == 0 {
      assert ExactSum(f, 0) == 0.0 && f(0) / 1.0 == f(0);
    } else {
      var before := t[..n];
      forall j | 0 < j < |before|
        ensures IsNextPower(before, z2, j)
      {
        assert IsNextPower(t, z2, j);
      }
      AtanhSumIsClose(f, before, z, z2, q);
      PowerIsClose(f, t, z, z2, q, n);
      PartIsClose(f(n), t[n], 2 * n + 1);
    }
  }

  lemma PartIsClose(exact: real, t: nat, d: nat)
    requires d >= 3 && 0.0 <= SCALE * exact - t as real <= 1.8
    ensures 0.0 <= SCALE * (exact / d as real) - Part(t, d) as real <= 1.6
  {
    var part, share := Part(t, d), exact / d as real;
    assert t == part * d + t % d;
    assert (part * d) as real == part as real * d as real;
    assert share * d as real == exact;
    var e := SCALE * share - part as real;
    assert e * d as real == SCALE * exact - t as real + (t % d) as real by {
      assert SCALE * share * d as real == SCALE * exact;
    }
    if e > 1.6 {
      Cancel(e, 1.6, d as real);
    } else if e < 0.0 {
      Cancel(0.0, e, d as real);
    }
  }

  /** The exact ratio (1 - m) / (1 + m). */
  function MantissaRatio(m: int): real
    requires m > 0
  {
    (ONE - m) as real / (ONE + m) as real
  }

  /** tau times the powers of its square. */
  function TauPower(tau: real, q: real, i: nat): real {
    tau * Pow(q, i)
  }

  /** tau + tau^3 / 3 + ..., n terms, for q the square of tau. */
  function OddSeries(tau: real, q: real, n: nat): real
    decreases n, tau
  {
    if n == 0 then 0.0 else OddSeries(tau, q, n - 1) + TauPower(tau, q, n - 1) / (2 * n - 1) as real
  }

  lemma {:induction false} ExactSumIsSeries(f: nat -> real, tau: real, q: real, n: nat)
    requires forall j: nat :: f(j) == TauPower(tau, q, j)
    ensures ExactSum(f, n) == OddSeries(tau, q, n)
  {
    if n > 0 {
      ExactSumIsSeries(f, tau, q, n - 1);
      assert f(n - 1) == TauPower(tau, q, n - 1);
    }
  }

  /** The floored ratio and its floored square against the exact ones. */
  lemma FlooredRatioIsClose(m: int)
    requires ONE / 2 <= m < ONE
    ensures var z, tau := (ONE - m) * ONE / (ONE + m), MantissaRatio(m);
            && 0 <= z && 3 * z <= ONE && 0.0 <= tau <= 0.3334
            && 0.0 <= SCALE * tau - z as real <= 1.0
  {
    var n, d := (ONE - m) * ONE, ONE + m;
    AtMostAThird(m, n, d);
    ThirdAtMost((ONE - m) as real, d as real);
    FloorOfShare(n / d, n, d, (ONE - m) as real, MantissaRatio(m));
  }

  lemma FloorOfShare(z: int, n: int, d: int, a: real, tau: real)
    requires d > 0 && z == n / d && n as real == SCALE * a && tau == a / d as real
    ensures 0.0 <= SCALE * tau - z as real <= 1.0
  {
    var r := n % d;
    assert n == z * d + r && 0 <= r < d;
    assert (z * d) as real == z as real * d as real;
    UnitGap(z as real, r as real, d as real, a, tau);
  }

  lemma UnitGap(z: real, r: real, d: real, a: real, tau: real)
    requires d > 0.0 && 0.0 <= r <= d && SCALE * a == z * d + r && tau == a / d
    ensures 0.0 <= SCALE * tau - z <= 1.0
  {
    assert tau * d == a;
    var e := SCALE * tau - z;
    assert e * d == r by {
      assert SCALE * tau * d == SCALE * a;
    }
    if e > 1.0 {
      Cancel(e, 1.0, d);
    } else if e < 0.0 {
      Cancel(0.0, e, d);
    }
  }

  lemma ThirdAtMost(n: real, d: real)
    requires d > 0.0 && 0.0 <= n && n <= 0.3334 * d
    ensures 0.0 <= n / d <= 0.3334
  {
    QuotientBetween(n, d, 0.3334);
  }

  lemma FlooredSquareIsClose(z: nat, z2: nat, tau: real, q: real)
    requires 3 * z <= ONE && 0.0 <= tau <= 0.3334 && 0.0 <= SCALE * tau - z as real <= 1.0
    requires z2 == Mul(z, z) && q == tau * tau
    ensures 0.0 <= q <= 0.1112 && 0.0 <= q - z2 as real / SCALE <= 1.67 / SCALE
  {
    var y := z as real / SCALE;
    ProductSlack(z, z, z2);
    Within(tau, 0.3334, tau, 0.3334);
    NonNegative(tau, tau);
    assert z as real == y * SCALE;
    var slack := z as real * y - z2 as real;
    assert y * y * SCALE == z as real * y;
    var gap := tau - y;
    assert q - y * y == gap * (tau + y);
    Within(gap, 1.0 / SCALE, tau + y, 0.6668);
    NonNegative(gap, tau + y);
    assert y * y - z2 as real / SCALE == slack / SCALE;
  }

  lemma PowersFollow(f: nat -> real, tau: real, q: real, j: nat)
    requires forall i: nat :: f(i) == TauPower(tau, q, i)
    ensures Powers(f, q, j)
  {
    if j > 0 {
      var p := Pow(q, j - 1);
      assert Pow(q, j) == p * q;
      assert tau * (p * q) == tau * p * q;
    }
  }

  lemma AtanhTraceIsClose(f: nat -> real, t: seq<nat>, z: nat, z2: nat, tau: real, q: real)
    requires IsAtanhTrace(t, z, z2) && forall j: nat :: f(j) == TauPower(tau, q, j)
    requires 0.0 <= tau <= 0.3334 && 0.0 <= SCALE * tau - z as real <= 1.0
    requires 0.0 <= q <= 0.1112 && 0.0 <= q - z2 as real / SCALE <= 1.67 / SCALE
    ensures 0.0 <= SCALE * ExactSum(f, |t|) - StoredSum(t) as real <= 1.6 * |t| as real
  {
    forall j | 0 <= j < |t|
      ensures Powers(f, q, j)
    {
      PowersFollow(f, tau, q, j);
    }
    assert Pow(q, 0) == 1.0 && f(0) == tau;
    AtanhSumIsClose(f, t, z, z2, q);
  }

  /** The 24 terms of atanh, exactly. */
  function ExactAtanh(tau: real): real {
    OddSeries(tau, tau * tau, ATANH_TERMS)
  }

  lemma LowIsClose(z: nat, z2: nat, tau: real, q: real, sum: nat)
    requires 3 * z <= ONE && 0.0 <= tau <= 0.3334 && 0.0 <= SCALE * tau - z as real <= 1.0
    requires z2 == Mul(z, z) && q == tau * tau && sum == AtanhState(z, z2, ATANH_TERMS - 1).1
    ensures 0.0 <= SCALE * ExactAtanh(tau) - sum as real <= 38.4
  {
    FlooredSquareIsClose(z, z2, tau, q);
    var t := AtanhTrace(z, z2, ATANH_TERMS - 1);
    LowAlong((i: nat) => TauPower(tau, q, i), t, z, z2, tau, q);
  }

  lemma LowAlong(f: nat -> real, t: seq<nat>, z: nat, z2: nat, tau: real, q: real)
    requires IsAtanhTrace(t, z, z2) && forall j: nat :: f(j) == TauPower(tau, q, j)
    requires 0.0 <= tau <= 0.3334 && 0.0 <= SCALE * tau - z as real <= 1.0
    requires 0.0 <= q <= 0.1112 && 0.0 <= q - z2 as real / SCALE <= 1.67 / SCALE
    ensures 0.0 <= SCALE * OddSeries(tau, q, |t|) - StoredSum(t) as real <= 1.6 * |t| as real
  {
    AtanhTraceIsClose(f, t, z, z2, tau, q);
    ExactSumIsSeries(f, tau, q, |t|);
  }

  lemma LowOf(m: int, z: int, sum: int)
    requires ONE / 2 <= m < ONE && z == (ONE - m) * ONE / (ONE + m) >= 0
    requires sum == AtanhState(z, Mul(z, z), ATANH_TERMS - 1).1
    ensures 0.0 <= SCALE * ExactAtanh(MantissaRatio(m)) - sum as real <= 38.4
  {
    FlooredRatioIsClose(m);
    LowIsClose(z, Mul(z, z), MantissaRatio(m), MantissaRatio(m) * MantissaRatio(m), sum);
  }

  lemma Assemble(nl: int, shifts: int, sum: int, half: real)
    requires nl == shifts + 2 * sum && 0.0 <= SCALE * half - sum as real <= 38.4
    ensures 0.0 <= shifts as real + SCALE * (2.0 * half) - nl as real <= 76.8
  {
  }

  /** For every fraction: the logarithm is never above its shift count times the
      stored ln 2 plus 1e18 times the exact 24-term series of its mantissa, and at
      most 76.8 units below. */
  lemma LogIsClose(x: int)
    requires 0 < x < ONE
    ensures var (m, k) := BinFixed.Normalised(x, ONE / 2);
            0.0 <= (LN2 * k) as real + SCALE * (2.0 * ExactAtanh(MantissaRatio(m))) - NegLog(x) as real <= 76.8
  {
    var sum, half := LogParts(x);
    Assemble(NegLog(x), LN2 * BinFixed.Normalised(x, ONE / 2).1, sum, half);
  }

  lemma LogParts(x: int) returns (sum: int, half: real)
    requires 0 < x < ONE
    ensures var (m, k) := BinFixed.Normalised(x, ONE / 2);
            m > 0 && NegLog(x) == LN2 * k + 2 * sum && half == ExactAtanh(MantissaRatio(m))
    ensures 0.0 <= SCALE * half - sum as real <= 38.4
  {
    NegLogBound(x);
    var (m, k) := BinFixed.Normalised(x, ONE / 2);
    var z := (ONE - m) * ONE / (ONE + m);
    sum := AtanhState(z, Mul(z, z), ATANH_TERMS - 1).1;
    half := ExactAtanh(MantissaRatio(m));
    LowOf(m, z, sum);
  }
}
