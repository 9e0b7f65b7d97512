/** Horner passes that floor at every step, against the exact polynomial. */
module Horner {

  const ONE62: int := 4_611_686_018_427_387_904

  /** `acc = ((acc * s) >> 62) + c(i)`, from the last coefficient down to the i-th. */
  function Floored(c: nat -> int, s: int, i: nat, n: nat): int
    requires i <= n
    decreases n - i, s
  {
    if i == n then c(n) else Floored(c, s, i + 1, n) * s / ONE62 + c(i)
  }

  function Pow(x: real, n: nat): real
    decreases n, x
  {
    if n == 0 then 1.0 else Pow(x, n - 1) * x
  }

  /** a(0) + a(1) x + ..., n terms. */
  function Polynomial(a: nat -> real, x: real, n: nat): real
    decreases n, x
  {
    if n == 0 then 0.0 else Polynomial(a, x, n - 1) + a(n - 1) * Pow(x, n - 1)
  }

  /** The terms from the i-th to the n-th, nested. */
  function Nested(a: nat -> real, x: real, i: nat, n: nat): real
    requires i <= n
    decreases n - i, x
  {
    if i == n then a(n) else a(i) + x * Nested(a, x, i + 1, n)
  }

  lemma Regroup(p: real, x: real, a: real, rest: real)
    ensures p * (a + x * rest) == a * p + p * x * rest
  {
  }

  /** One step of the nesting hands one term over to the sum. */
  lemma NestedStep(a: nat -> real, x: real, i: nat, n: nat)
    requires i < n
    ensures Pow(x, i) * Nested(a, x, i, n) == a(i) * Pow(x, i) + Pow(x, i + 1) * Nested(a, x, i + 1, n)
  {
    var p, rest := Pow(x, i), Nested(a, x, i + 1, n);
    Regroup(p, x, a(i), rest);
  }

  lemma Commute(p: real, a: real)
    ensures p * a == a * p
  {
  }

  lemma {:induction false} NestedIsPolynomial(a: nat -> real, x: real, i: nat, n: nat)
    requires i <= n
    ensures Polynomial(a, x, n + 1) == Polynomial(a, x, i) + Pow(x, i) * Nested(a, x, i, n)
    decreases n - i
  {
    if i < n {
      NestedIsPolynomial(a, x, i + 1, n);
      NestedStep(a, x, i, n);
    } else {
      Commute(Pow(x, i), a(i));
    }
  }

  /** Every coefficient of the table is within half a unit of the exact one. */
  predicate Rounded(c: nat -> int, a: nat -> real, n: nat) {
    forall i :: 0 <= i <= n ==> -0.5 <= c(i) as real - ONE62 as real * a(i) <= 0.5
  }

  function Error(c: nat -> int, a: nat -> real, s: int, i: nat, n: nat): real
    requires i <= n
  {
    Floored(c, s, i, n) as real - ONE62 as real * Nested(a, s as real / ONE62 as real, i, n)
  }

  lemma FloorWithin(v: int)
    ensures v as real / ONE62 as real - 1.0 <= (v / ONE62) as real <= v as real / ONE62 as real
  {
    var q, r := v / ONE62, v % ONE62;
    assert v == q * ONE62 + r;
    assert v as real == q as real * ONE62 as real + r as real;
  }

  /** One step shrinks the error so far by x, floors once and rounds once. */
  lemma ErrorStep(v: int, exact: real, s: int, c: int, a: real, sigma: real, bound: real)
    requires 0 <= s && s as real <= sigma * ONE62 as real
    requires -bound <= v as real - ONE62 as real * exact <= bound
    requires -0.5 <= c as real - ONE62 as real * a <= 0.5
    requires bound * sigma + 1.5 <= bound && bound >= 0.0
    ensures var x := s as real / ONE62 as real;
            -bound <= (v * s / ONE62 + c) as real - ONE62 as real * (a + x * exact) <= bound
  {
    var x := s as real / ONE62 as real;
    var e := v as real - ONE62 as real * exact;
    FloorWithin(v * s);
    RealProduct(v, s);
    SplitError(v as real, exact, x);
    Scale(e, x, bound, sigma);
    var floored := v * s / ONE62;
    assert (floored + c) as real == floored as real + c as real;
    AddErrors(floored as real, v as real * x, x * exact, e * x, c as real, a, bound * sigma, bound);
  }

  lemma AddErrors(floored: real, scaled: real, exact: real, e: real, c: real, a: real, slack: real, bound: real)
    requires scaled - 1.0 <= floored <= scaled && scaled == ONE62 as real * exact + e
    requires -slack <= e <= slack && slack + 1.5 <= bound
    requires -0.5 <= c - ONE62 as real * a <= 0.5
    ensures -bound <= floored + c - ONE62 as real * (a + exact) <= bound
  {
  }

  lemma RealProduct(v: int, s: int)
    ensures (v * s) as real / ONE62 as real == v as real * (s as real / ONE62 as real)
  {
    assert (v * s) as real == v as real * s as real;
  }

  lemma SplitError(v: real, exact: real, x: real)
    ensures v * x == ONE62 as real * (x * exact) + (v - ONE62 as real * exact) * x
  {
  }

  lemma MulLe(a: real, b: real, c: real)
    requires a <= b && c >= 0.0
    ensures a * c <= b * c
  {
  }

  lemma Scale(e: real, x: real, bound: real, sigma: real)
    requires -bound <= e <= bound && 0.0 <= x <= sigma && bound >= 0.0
    ensures -(bound * sigma) <= e * x <= bound * sigma
  {
    MulLe(e, bound, x);
    MulLe(-bound, e, x);
    MulLe(x, sigma, bound);
  }

  lemma {:induction false} ErrorBound(c: nat -> int, a: nat -> real, s: int, i: nat, n: nat, sigma: real, bound: real)
    requires i <= n && Rounded(c, a, n)
    requires 0 <= s && s as real <= sigma * ONE62 as real
    requires bound * sigma + 1.5 <= bound && bound >= 0.5
    ensures -bound <= Error(c, a, s, i, n) <= bound
    decreases n - i
  {
    if i < n {
      ErrorBound(c, a, s, i + 1, n, sigma, bound);
      ErrorStep(Floored(c, s, i + 1, n), Nested(a, s as real / ONE62 as real, i + 1, n), s, c(i), a(i), sigma, bound);
    }
  }

  /** A floored pass over a rounded table stays within `bound` units of 2^62
      times the exact polynomial. */
  lemma FlooredIsClose(c: nat -> int, a: nat -> real, s: int, n: nat, sigma: real, bound: real)
    requires Rounded(c, a, n)
    requires 0 <= s && s as real <= sigma * ONE62 as real
    requires bound * sigma + 1.5 <= bound && bound >= 0.5
    ensures var x := s as real / ONE62 as real;
            -bound <= Floored(c, s, 0, n) as real - ONE62 as real * Polynomial(a, x, n + 1) <= bound
  {
    ErrorBound(c, a, s, 0, n, sigma, bound);
    NestedIsPolynomial(a, s as real / ONE62 as real, 0, n);
    assert Pow(s as real / ONE62 as real, 0) == 1.0;
  }
}
