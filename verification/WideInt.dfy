/** The 256-bit intermediates of src/lib.rs: a schoolbook product in two 128-bit
    words and a restoring division that drops a bit at every shift. */
module WideInt {
  import opened Arithmetic
  import opened Words
  import opened Wrappers

  datatype CurveError =
    | VirtualTokenReserveTooSmall
    | ZeroAmount
    | QuantityAtOrAboveReserve
    | ExceedsSaleReserve
    | ExceedsRealCollateral
    | Overflow
    | SlippageExceeded

  /** Full 128 x 128 -> 256 product as (hi, lo); no intermediate leaves u128 and
      the final shift loses nothing that `hi` does not pick up. */
  method WideMul(a: u128, b: u128) returns (hi: u128, lo: u128)
    ensures hi * TWO_POW_128 + lo == a * b
  {
    var aHi: u64, aLo: u64 := a / TWO_POW_64, a % TWO_POW_64;
    var bHi: u64, bLo: u64 := b / TWO_POW_64, b % TWO_POW_64;
    var loLo := LimbProduct(aLo, bLo);
    var hiLo := LimbProduct(aHi, bLo);
    var loHi := LimbProduct(aLo, bHi);
    var hiHi := LimbProduct(aHi, bHi);
    var mid: u128 := loLo / TWO_POW_64 + hiLo % TWO_POW_64 + loHi % TWO_POW_64;
    Assemble(hiHi, hiLo, loHi, loLo, mid);
    // `mid << 64` drops what is above 128 bits.
    lo := mid * TWO_POW_64 % TWO_POW_128 + loLo % TWO_POW_64;
    Schoolbook(a, b, aHi, aLo, bHi, bLo, TWO_POW_64);
    ProductBound(a, b, TWO_POW_128);
    hi := hiHi + hiLo / TWO_POW_64 + loHi / TWO_POW_64 + mid / TWO_POW_64;
  }

  /** The product of two limbs fits in one word. */
  function LimbProduct(x: u64, y: u64): (p: u128)
    ensures p == x * y && p <= (TWO_POW_64 - 1) * (TWO_POW_64 - 1)
  {
    ProductBound(x, y, TWO_POW_64);
    x * y
  }

  lemma Schoolbook(a: int, b: int, aHi: int, aLo: int, bHi: int, bLo: int, limb: int)
    requires a == aHi * limb + aLo && b == bHi * limb + bLo
    ensures a * b == aHi * bHi * (limb * limb) + (aHi * bLo + aLo * bHi) * limb + aLo * bLo
  {
  }

  /** Carrying the three partial sums into two words loses nothing. */
  lemma Assemble(hiHi: int, hiLo: int, loHi: int, loLo: int, mid: int)
    requires 0 <= loLo && 0 <= hiLo && 0 <= loHi
    requires mid == loLo / TWO_POW_64 + hiLo % TWO_POW_64 + loHi % TWO_POW_64
    ensures 0 <= mid * TWO_POW_64 % TWO_POW_128 + loLo % TWO_POW_64 < TWO_POW_128
    ensures (hiHi + hiLo / TWO_POW_64 + loHi / TWO_POW_64 + mid / TWO_POW_64) * TWO_POW_128
              + (mid * TWO_POW_64 % TWO_POW_128 + loLo % TWO_POW_64)
         == hiHi * TWO_POW_128 + (hiLo + loHi) * TWO_POW_64 + loLo
  {
    DivUnique(mid * TWO_POW_64, TWO_POW_128, mid / TWO_POW_64, mid % TWO_POW_64 * TWO_POW_64);
  }

  /** 256 / 128 -> (quotient, remainder). Refuses a zero divisor and a quotient
      above 128 bits, and is exact in every other case although `rem << 1`
      loses its top bit and the subtraction wraps. */
  method WideDiv(hi: u128, lo: u128, d: u128) returns (r: Result<(u128, u128), CurveError>)
    ensures d == 0 ==> r == Err(ZeroAmount)
    ensures d != 0 && (hi * TWO_POW_128 + lo) / d >= TWO_POW_128 ==> r == Err(Overflow)
    ensures d != 0 && (hi * TWO_POW_128 + lo) / d < TWO_POW_128 ==>
              r == Ok(((hi * TWO_POW_128 + lo) / d, (hi * TWO_POW_128 + lo) % d))
  {
    if d == 0 {
      return Err(ZeroAmount);
    }
    QuotientFits(hi, lo, d);
    if hi >= d {
      return Err(Overflow);
    }
    ghost var n := hi * TWO_POW_128 + lo;
    var rem: u128 := hi;
    var quo: u128 := 0;
    var i: nat := 128;
    Pow2At128();
    DivUnique(lo, Pow2(128), 0, lo);
    while i > 0
      invariant 0 <= i <= 128
      invariant rem < d && quo < Pow2(128 - i)
      invariant Partial(n, quo, rem, d, i, lo)
    {
      i := i - 1;
      var carried := rem / TWO_POW_127;
      var bit := lo / Pow2(i) % 2;
      ShiftAndSubtract(rem, bit, d);
      QuotientRoom(quo, i);
      DivStep(n, quo, rem, d, i, lo);
      rem := rem * 2 % TWO_POW_128 + bit;
      quo := quo * 2 % TWO_POW_128;
      if carried == 1 || rem >= d {
        rem := (rem - d) % TWO_POW_128;
        quo := quo + 1;
      }
    }
    DivDone(n, quo, rem, d, lo);
    return Ok((quo, rem));
  }

  /** After the bits from i up: the quotient and remainder so far, and the bits still to come. */
  ghost predicate Partial(n: int, quo: int, rem: int, d: int, i: nat, lo: int) {
    n == (quo * d + rem) * Pow2(i) + lo % Pow2(i)
  }

  lemma DivDone(n: int, quo: int, rem: int, d: int, lo: int)
    requires 0 <= rem < d && Partial(n, quo, rem, d, 0, lo)
    ensures quo == n / d && rem == n % d
  {
    assert Pow2(0) == 1;
    DivUnique(n, d, quo, rem);
  }

  /** `rem << 1` drops the top bit and `wrapping_sub` wraps, yet together they
      compute 2 * rem + bit, less d when that is not below d. */
  lemma ShiftAndSubtract(rem: u128, bit: int, d: u128)
    requires rem < d && 0 <= bit < 2
    ensures var carried, shifted, full := rem / TWO_POW_127, rem * 2 % TWO_POW_128 + bit, 2 * rem + bit;
            && 0 <= shifted < TWO_POW_128
            && (carried == 1 || shifted >= d <==> full >= d)
            && (full >= d ==> (shifted - d) % TWO_POW_128 == full - d < d)
            && (full < d ==> shifted == full)
  {
    DivUnique(rem * 2, TWO_POW_128, rem / TWO_POW_127, rem % TWO_POW_127 * 2);
    var full := 2 * rem + bit;
    if full >= d {
      DivUnique(full - d - rem / TWO_POW_127 * TWO_POW_128, TWO_POW_128, -(rem / TWO_POW_127), full - d);
    }
  }

  /** One pass of the loop keeps what the quotient and remainder so far stand for. */
  lemma DivStep(n: int, quo: int, rem: int, d: int, i: nat, lo: int)
    requires lo >= 0 && Partial(n, quo, rem, d, i + 1, lo)
    ensures Partial(n, quo * 2, 2 * rem + lo / Pow2(i) % 2, d, i, lo)
    ensures Partial(n, quo * 2 + 1, 2 * rem + lo / Pow2(i) % 2 - d, d, i, lo)
  {
    var bit := lo / Pow2(i) % 2;
    NextBit(lo, i);
    Doubled(quo, d);
    Unroll(n, quo * d + rem, Pow2(i), bit, lo % Pow2(i), quo * 2 * d + (2 * rem + bit));
    Unroll(n, quo * d + rem, Pow2(i), bit, lo % Pow2(i), (quo * 2 + 1) * d + (2 * rem + bit - d));
  }

  lemma Doubled(quo: int, d: int)
    ensures quo * 2 * d == 2 * (quo * d)
    ensures (quo * 2 + 1) * d == 2 * (quo * d) + d
  {
  }

  lemma Unroll(n: int, x: int, p: int, bit: int, low: int, next: int)
    requires n == x * (2 * p) + (bit * p + low) && next == 2 * x + bit
    ensures n == next * p + low
  {
  }

  lemma QuotientRoom(quo: u128, i: nat)
    requires i < 128 && quo < Pow2(127 - i)
    ensures quo * 2 % TWO_POW_128 == quo * 2 && quo * 2 + 1 < Pow2(128 - i) <= TWO_POW_128
  {
    Pow2At128();
    Pow2Mono(128 - i, 128);
  }

  lemma QuotientFits(hi: u128, lo: u128, d: u128)
    requires d > 0
    ensures hi >= d <==> (hi * TWO_POW_128 + lo) / d >= TWO_POW_128
  {
    FloorAdjoint(TWO_POW_128, hi * TWO_POW_128 + lo, d);
  }

  lemma NextBit(lo: int, i: nat)
    requires lo >= 0
    ensures lo % Pow2(i + 1) == lo / Pow2(i) % 2 * Pow2(i) + lo % Pow2(i)
  {
    var p := Pow2(i);
    var q, r := lo / p, lo % p;
    assert lo == q * p + r;
    assert q == q / 2 * 2 + q % 2;
    var h := q / 2;
    assert lo == h * (2 * p) + (q % 2 * p + r) by {
      assert q * p == (h * 2 + q % 2) * p;
    }
    DivUnique(lo, 2 * p, h, q % 2 * p + r);
  }

  lemma Pow2At128()
    ensures Pow2(128) == TWO_POW_128
  {
    Pow2At64();
    Pow2Add(64, 64);
  }

  /** floor(a * b / d), refused exactly when d is zero or the result needs more
      than 128 bits. Every caller in the repository is modelled through this. */
  function FloorQuotient(a: int, b: int, d: int): (r: Result<u128, CurveError>)
    requires 0 <= a && 0 <= b && 0 <= d
    ensures r.Ok? ==> d > 0 && r.value * d <= a * b < (r.value + 1) * d
  {
    if d == 0 then Err(ZeroAmount)
    else
      FloorAdjoint(0, a * b, d);
      FloorAdjoint(a * b / d + 1, a * b, d);
      if a * b / d >= TWO_POW_128 then Err(Overflow)
      else Ok(a * b / d)
  }

  /** ceil(a * b / d), refused exactly when d is zero or the result needs more
      than 128 bits. */
  function CeilQuotient(a: int, b: int, d: int): (r: Result<u128, CurveError>)
    requires 0 <= a && 0 <= b && 0 <= d
    ensures r.Ok? ==> d > 0 && (r.value - 1) * d < a * b <= r.value * d
  {
    if d == 0 then Err(ZeroAmount)
    else
      CeilAdjoint(a * b, d, -1);
      if CeilDiv(a * b, d) >= TWO_POW_128 then Err(Overflow)
      else Ok(CeilDiv(a * b, d))
  }

  method MulDivFloor(a: u128, b: u128, d: u128) returns (r: Result<u128, CurveError>)
    ensures r == FloorQuotient(a, b, d)
  {
    var hi, lo := WideMul(a, b);
    var qr :- WideDiv(hi, lo, d);
    return Ok(qr.0);
  }

  method MulDivCeil(a: u128, b: u128, d: u128) returns (r: Result<u128, CurveError>)
    ensures r == CeilQuotient(a, b, d)
  {
    var hi, lo := WideMul(a, b);
    var qr :- WideDiv(hi, lo, d);
    if qr.1 == 0 {
      return Ok(qr.0);
    }
    if qr.0 + 1 >= TWO_POW_128 {
      return Err(Overflow);
    }
    return Ok(qr.0 + 1);
  }
}
