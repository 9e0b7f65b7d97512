/** A word used as a set of bits: `1 << i`, `|` with one bit, `count_ones`. */
module Bits {
  import opened Arithmetic

  predicate Bit(s: nat, i: nat) {
    s / Pow2(i) % 2 == 1
  }

  /** `s | (1 << i)`. */
  function SetBit(s: nat, i: nat): nat {
    if Bit(s, i) then s else s + Pow2(i)
  }

  /** `s.count_ones()`. */
  function Popcount(s: nat): nat {
    if s == 0 then 0 else s % 2 + Popcount(s / 2)
  }

  lemma BitStep(s: nat, i: nat)
    requires i > 0
    ensures Bit(s, i) <==> Bit(s / 2, i - 1)
    ensures (s + Pow2(i)) / 2 == s / 2 + Pow2(i - 1) && (s + Pow2(i)) % 2 == s % 2
  {
    var p := Pow2(i - 1);
    var q, r := s / 2 / p, s / 2 % p;
    assert s == 2 * (s / 2) + s % 2 && s / 2 == q * p + r;
    assert s == q * (2 * p) + (2 * r + s % 2);
    DivUnique(s, 2 * p, q, 2 * r + s % 2);
  }

  /** Setting a clear bit raises the count by exactly one. */
  lemma {:induction false} PopcountSet(s: nat, i: nat)
    requires !Bit(s, i)
    ensures Popcount(s + Pow2(i)) == Popcount(s) + 1
  {
    if i == 0 {
      assert s / Pow2(0) == s;
      assert (s + 1) / 2 == s / 2;
    } else {
      BitStep(s, i);
      PopcountSet(s / 2, i - 1);
    }
  }

  /** Setting a clear bit below n stays below 2^n. */
  lemma {:induction false} SetBelow(s: nat, i: nat, n: nat)
    requires i < n && s < Pow2(n) && !Bit(s, i)
    ensures s + Pow2(i) < Pow2(n)
  {
    if i == 0 {
      assert s / Pow2(0) == s;
    } else {
      BitStep(s, i);
      SetBelow(s / 2, i - 1, n - 1);
    }
  }

  /** Below 2^n there are at most n ones, and n only in the all-ones word. */
  lemma {:induction false} PopcountBound(s: nat, n: nat)
    requires s < Pow2(n)
    ensures Popcount(s) <= n
    ensures Popcount(s) == n <==> s == Pow2(n) - 1
  {
    if n > 0 {
      PopcountBound(s / 2, n - 1);
    }
  }

  /** The all-ones word is the one with every bit below n set. */
  lemma {:induction false} AllOnes(s: nat, n: nat)
    requires s < Pow2(n)
    ensures s == Pow2(n) - 1 <==> forall i :: 0 <= i < n ==> Bit(s, i)
  {
    if n > 0 {
      AllOnes(s / 2, n - 1);
      assert Bit(s, 0) <==> s % 2 == 1 by {
        assert s / Pow2(0) == s;
      }
      forall i | 0 < i < n
        ensures Bit(s, i) <==> Bit(s / 2, i - 1)
      {
        BitStep(s, i);
      }
      if forall i :: 0 <= i < n ==> Bit(s, i) {
        forall i | 0 <= i < n - 1
          ensures Bit(s / 2, i)
        {
          assert Bit(s, i + 1);
        }
      }
    }
  }

  lemma BitZero(s: nat)
    ensures Bit(s, 0) <==> s % 2 == 1
  {
    assert s / Pow2(0) == s;
  }

  /** Setting one clear bit leaves the others. */
  lemma {:induction false} SetBitOthers(s: nat, i: nat, j: nat)
    requires !Bit(s, i)
    ensures Bit(s + Pow2(i), j) <==> j == i || Bit(s, j)
  {
    if i == 0 {
      BitZero(s);
      assert (s + 1) / 2 == s / 2;
    } else {
      BitStep(s, i);
    }
    if j == 0 {
      BitZero(s);
      BitZero(s + Pow2(i));
    } else {
      BitStep(s, j);
      BitStep(s + Pow2(i), j);
      if i > 0 {
        SetBitOthers(s / 2, i - 1, j - 1);
      }
    }
  }
}
