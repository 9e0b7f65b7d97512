/** The few facts about products and quotients that everything else rests on. */
module Arithmetic {

  /** The least k with k * d >= n. */
  function CeilDiv(n: int, d: int): (k: int)
    requires d > 0
    ensures k * d >= n > (k - 1) * d
  {
    if n % d == 0 then n / d else n / d + 1
  }

  lemma MulMono(a: int, b: int, c: int)
    requires a <= b && 0 <= c
    ensures a * c <= b * c && c * a <= c * b
  {
  }

  /** Multiplication by a positive number reflects order. */
  lemma MulCancel(a: int, b: int, c: int)
    requires c > 0 && a * c <= b * c
    ensures a <= b
  {
    if b < a {
      MulMono(b + 1, a, c);
    }
  }

  /** Floor division is the right adjoint of multiplication. */
  lemma FloorAdjoint(k: int, n: int, d: int)
    requires d > 0
    ensures k * d <= n <==> k <= n / d
  {
    assert n == (n / d) * d + n % d;
    if k <= n / d {
      MulMono(k, n / d, d);
    } else {
      MulMono(n / d + 1, k, d);
      assert (n / d + 1) * d == (n / d) * d + d;
    }
  }

  /** Ceiling division is the left adjoint of multiplication. */
  lemma CeilAdjoint(n: int, d: int, k: int)
    requires d > 0
    ensures n <= k * d <==> CeilDiv(n, d) <= k
  {
    var c := CeilDiv(n, d);
    if c <= k {
      MulMono(c, k, d);
    } else {
      MulMono(k, c - 1, d);
    }
  }

  lemma DivMod(n: int, d: int)
    requires d > 0 && n >= 0
    ensures n == d * (n / d) + n % d
    ensures 0 <= n % d < d && 0 <= n / d
  {
    FloorAdjoint(0, n, d);
  }

  lemma DivMono(a: int, b: int, d: int)
    requires d > 0 && a <= b
    ensures a / d <= b / d
  {
    FloorAdjoint(a / d, a, d);
    FloorAdjoint(a / d, b, d);
  }

  lemma DivBelow(n: int, d: int, k: int)
    requires d > 0 && 0 <= n < k * d
    ensures 0 <= n / d < k
  {
    FloorAdjoint(0, n, d);
    FloorAdjoint(k, n, d);
  }

  /** A quotient is determined by any decomposition with a small remainder. */
  lemma DivUnique(n: int, d: int, q: int, r: int)
    requires d > 0 && n == q * d + r && 0 <= r < d
    ensures q == n / d && r == n % d
  {
    FloorAdjoint(q, n, d);
    FloorAdjoint(q + 1, n, d);
    assert (q + 1) * d == q * d + d;
  }

  function Pow2(n: nat): (p: int)
    ensures p > 0
  {
    if n == 0 then 1 else 2 * Pow2(n - 1)
  }

  lemma {:induction false} Pow2Add(a: nat, b: nat)
    ensures Pow2(a + b) == Pow2(a) * Pow2(b)
  {
    if a > 0 {
      Pow2Add(a - 1, b);
    }
  }

  lemma {:induction false} Pow2Mono(a: nat, b: nat)
    requires a <= b
    ensures Pow2(a) <= Pow2(b)
  {
    if a < b {
      Pow2Mono(a, b - 1);
    }
  }

  /** A product of two numbers below a bound. */
  lemma ProductBound(x: int, y: int, b: int)
    requires 0 <= x < b && 0 <= y < b
    ensures 0 <= x * y <= (b - 1) * (b - 1)
  {
    MulMono(x, b - 1, y);
    MulMono(y, b - 1, b - 1);
  }

  lemma Pow2At64()
    ensures Pow2(8) == 0x100
    ensures Pow2(32) == 0x1_0000_0000
    ensures Pow2(64) == 0x1_0000_0000_0000_0000
  {
    assert Pow2(4) == 16;
    Pow2Add(4, 4);
    Pow2Add(8, 8);
    Pow2Add(16, 16);
    Pow2Add(32, 32);
  }
}
