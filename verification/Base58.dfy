/** Base58 both ways, app/src/vesting_chain.cpp: a change of number base by
    nested carry loops that keeps leading zeros apart. */
module Base58 {
  import opened Arithmetic
  import opened Words
  import opened Wrappers

  // -------------------------------------------------------- positional digits

  predicate InBase(ds: seq<nat>, base: nat) {
    forall i :: 0 <= i < |ds| ==> ds[i] < base
  }

  /** The value of digits written little end first. */
  function Le(ds: seq<nat>, base: nat): nat {
    if ds == [] then 0 else ds[0] + base * Le(ds[1..], base)
  }

  /** The value of digits written big end first. */
  function Be(ds: seq<nat>, base: nat): nat {
    if ds == [] then 0 else Be(ds[..|ds| - 1], base) * base + ds[|ds| - 1]
  }

  function Reverse(ds: seq<nat>): (r: seq<nat>)
    ensures |r| == |ds|
    ensures forall i :: 0 <= i < |ds| ==> r[i] == ds[|ds| - 1 - i]
  {
    seq(|ds|, i requires 0 <= i < |ds| => ds[|ds| - 1 - i])
  }

  lemma {:induction false} BeOfReverse(ds: seq<nat>, base: nat)
    ensures Be(Reverse(ds), base) == Le(ds, base)
  {
    if ds != [] {
      BeOfReverse(ds[1..], base);
      assert Reverse(ds)[..|ds| - 1] == Reverse(ds[1..]);
    }
  }

  /** Digits without a zero at the big end. */
  predicate Canonical(ds: seq<nat>, base: nat) {
    InBase(ds, base) && (ds != [] ==> ds[|ds| - 1] != 0)
  }

  /** The one canonical writing of a number, little end first. */
  function Digits(n: nat, base: nat): (ds: seq<nat>)
    requires base >= 2
    ensures Canonical(ds, base)
    ensures Le(ds, base) == n
  {
    if n == 0 then []
    else
      QuotientSmaller(n, base);
      DivMod(n, base);
      var rest := Digits(n / base, base);
      assert ([n % base] + rest)[1..] == rest;
      [n % base] + rest
  }

  lemma QuotientSmaller(n: nat, base: nat)
    requires n > 0 && base >= 2
    ensures 0 <= n / base < n
  {
    FloorAdjoint(0, n, base);
    FloorAdjoint(n, n, base);
    MulMono(2, base, n);
  }

  lemma {:induction false} CanonicalIsDigits(ds: seq<nat>, base: nat)
    requires base >= 2 && Canonical(ds, base)
    ensures ds == Digits(Le(ds, base), base)
    ensures ds != [] ==> Le(ds, base) > 0
  {
    if ds != [] {
      var n, rest := Le(ds, base), ds[1..];
      CanonicalIsDigits(rest, base);
      if rest != [] {
        MulMono(1, Le(rest, base), base);
      }
      DivUnique(n, base, Le(rest, base), ds[0]);
    }
  }

  // ------------------------------------------------------------- carry loops

  function Power(base: nat, n: nat): nat {
    if n == 0 then 1 else base * Power(base, n - 1)
  }

  lemma {:induction false} LeAppend(ds: seq<nat>, d: nat, base: nat)
    ensures Le(ds + [d], base) == Le(ds, base) + Power(base, |ds|) * d
  {
    if ds == [] {
      assert [d][1..] == [];
    } else {
      LeAppend(ds[1..], d, base);
      assert (ds + [d])[1..] == ds[1..] + [d];
      Distribute(base, Le(ds[1..], base), Power(base, |ds| - 1), d);
    }
  }

  lemma Distribute(b: nat, x: nat, p: nat, d: nat)
    ensures b * (x + p * d) == b * x + b * p * d
  {
  }

  /** Writing the low digit of what is carried and keeping the rest changes nothing. */
  lemma CarryOn(ds: seq<nat>, x: nat, base: nat)
    requires base >= 2
    ensures 0 <= x / base
    ensures Le(ds + [x % base], base) + Power(base, |ds| + 1) * (x / base) == Le(ds, base) + Power(base, |ds|) * x
  {
    DivMod(x, base);
    LeAppend(ds, x % base, base);
    CarrySplit(base, Power(base, |ds|), x / base, x % base, x);
  }

  lemma CarrySplit(b: nat, p: nat, q: nat, r: nat, x: nat)
    requires x == b * q + r
    ensures p * r + b * p * q == p * x
  {
  }

  /** The low `j` digits are rewritten, `carry` is still to come, and a positive
      big end so far left a digit or a carry. */
  predicate Carrying(ds: seq<nat>, digits: seq<nat>, j: nat, carry: nat, mul: nat, base: nat, c: nat)
    requires j <= |ds| == |digits|
  {
    && InBase(digits[..j], base)
    && Le(digits[..j], base) + Power(base, j) * carry == Le(ds[..j], base) * mul + c
    && (j == 0 || carry != 0 || digits[j - 1] != 0 || ds[j - 1] == 0)
  }

  lemma CarryStep(ds: seq<nat>, digits: seq<nat>, j: nat, carry: nat, mul: nat, base: nat, c: nat, x: nat)
    requires base >= 2 && mul >= 1
    requires j < |ds| == |digits| && Carrying(ds, digits, j, carry, mul, base, c)
    requires x == carry + ds[j] * mul
    ensures 0 <= x % base && 0 <= x / base
    ensures Carrying(ds, digits[j := x % base], j + 1, x / base, mul, base, c)
  {
    DivMod(x, base);
    LeAppend(ds[..j], ds[j], base);
    CarryOn(digits[..j], x, base);
    Widen(Le(digits[..j], base), Power(base, j), carry, ds[j], mul, Le(ds[..j], base), c);
    LowDigit(x, base, ds[j], mul);
    assert ds[..j + 1] == ds[..j] + [ds[j]];
    assert digits[j := x % base][..j + 1] == digits[..j] + [x % base];
  }

  /** digits * mul + carry, in place: one pass over the digits, then the carry is
      appended. The result has no zero at the big end if the digits had none. */
  method MulAdd(ds: seq<nat>, mul: nat, base: nat, c: nat) returns (digits: seq<nat>)
    requires 2 <= base <= 256 && 1 <= mul <= 256 && c < 256 && Canonical(ds, base)
    ensures 0 <= Le(ds, base) * mul
    ensures digits == Digits(Le(ds, base) * mul + c, base)
  {
    digits := ds;
    var carry: i32 := c;
    var j := 0;
    while j < |ds|
      invariant 0 <= j <= |ds| == |digits|
      invariant digits[j..] == ds[j..]
      invariant 0 <= carry <= 256
      invariant Carrying(ds, digits, j, carry, mul, base, c)
    {
      assert digits[j] == digits[j..][0] == ds[j];
      CarryRoom(carry, ds[j], mul, base);
      var x: i32 := carry + digits[j] * mul;
      CarryStep(ds, digits, j, carry, mul, base, c, x);
      digits, carry := digits[j := x % base], x / base;
      j := j + 1;
      assert digits[j..] == ds[j..];
    }
    PassDone(ds, digits, carry, mul, base, c);
    while carry > 0
      invariant 0 <= carry
      invariant Appending(ds, digits, carry, mul, base, c)
    {
      AppendStep(ds, digits, carry, mul, base, c);
      digits, carry := digits + [carry % base], carry / base;
    }
    AppendDone(ds, digits, mul, base, c);
  }

  /** All digits are rewritten; the carry goes on top. */
  predicate Appending(ds: seq<nat>, digits: seq<nat>, carry: nat, mul: nat, base: nat, c: nat) {
    && InBase(digits, base)
    && Le(digits, base) + Power(base, |digits|) * carry == Le(ds, base) * mul + c
    && (carry == 0 ==> Canonical(digits, base))
  }

  lemma PassDone(ds: seq<nat>, digits: seq<nat>, carry: nat, mul: nat, base: nat, c: nat)
    requires |ds| == |digits| && Canonical(ds, base) && Carrying(ds, digits, |ds|, carry, mul, base, c)
    ensures Appending(ds, digits, carry, mul, base, c)
  {
    assert digits[..|ds|] == digits && ds[..|ds|] == ds;
  }

  lemma AppendStep(ds: seq<nat>, digits: seq<nat>, carry: nat, mul: nat, base: nat, c: nat)
    requires base >= 2 && carry > 0 && Appending(ds, digits, carry, mul, base, c)
    ensures 0 <= carry / base < carry
    ensures Appending(ds, digits + [carry % base], carry / base, mul, base, c)
  {
    CarryOn(digits, carry, base);
    LowDigit(carry, base, carry, 1);
    QuotientSmaller(carry, base);
  }

  lemma AppendDone(ds: seq<nat>, digits: seq<nat>, mul: nat, base: nat, c: nat)
    requires base >= 2 && Appending(ds, digits, 0, mul, base, c)
    ensures 0 <= Le(ds, base) * mul
    ensures digits == Digits(Le(ds, base) * mul + c, base)
  {
    CanonicalIsDigits(digits, base);
    MulMono(0, Le(ds, base), mul);
  }

  /** What is carried stays within a byte, so the products stay within an `int`. */
  lemma CarryRoom(carry: nat, d: nat, mul: nat, base: nat)
    requires carry <= 256 && d < base && 2 <= base <= 256 && 1 <= mul <= 256
    ensures 0 <= d * mul <= 0x1_0000
    ensures 0 <= (carry + d * mul) / base <= 256
  {
    MulMono(0, d, mul);
    MulMono(d, base - 1, mul);
    MulMono(mul, 256, base - 1);
    assert carry + d * mul <= 256 * base;
    DivMono(carry + d * mul, 256 * base, base);
    FloorAdjoint(0, carry + d * mul, base);
    DivUnique(256 * base, base, 256, 0);
  }

  lemma Widen(low: nat, p: nat, carry: nat, d: nat, mul: nat, v: nat, c: nat)
    requires low + p * carry == v * mul + c
    ensures low + p * (carry + d * mul) == (v + p * d) * mul + c
  {
  }

  /** A positive number leaves a digit or a carry. */
  lemma LowDigit(x: nat, base: nat, d: nat, mul: nat)
    requires base >= 2 && mul >= 1 && x >= d * mul
    ensures x % base < base && 0 <= x / base
    ensures d == 0 || x / base != 0 || x % base != 0
  {
    FloorAdjoint(0, x, base);
    if d > 0 {
      MulMono(1, d, mul);
    }
  }

  // ----------------------------------------------------------- change of base

  function Zeros(n: nat): (z: seq<nat>)
    ensures |z| == n && forall i :: 0 <= i < n ==> z[i] == 0
  {
    seq(n, _ => 0)
  }

  /** How many leading zeros, big end first. */
  function Leading(ds: seq<nat>): (z: nat)
    ensures z <= |ds| && (forall i :: 0 <= i < z ==> ds[i] == 0) && (z < |ds| ==> ds[z] != 0)
  {
    if ds == [] || ds[0] != 0 then 0 else 1 + Leading(ds[1..])
  }

  /** From base `a` to base `b`, one zero for each leading zero. */
  function Recode(ds: seq<nat>, a: nat, b: nat): seq<nat>
    requires b >= 2
  {
    Zeros(Leading(ds)) + Reverse(Digits(Be(ds, a), b))
  }

  lemma {:induction false} BeAfterZeros(z: nat, ds: seq<nat>, base: nat)
    ensures Be(Zeros(z) + ds, base) == Be(ds, base)
    decreases |ds|, z
  {
    if ds != [] {
      BeAfterZeros(z, ds[..|ds| - 1], base);
      assert (Zeros(z) + ds)[..z + |ds| - 1] == Zeros(z) + ds[..|ds| - 1];
    } else if z > 0 {
      BeAfterZeros(z - 1, ds, base);
      assert (Zeros(z) + ds)[..z - 1] == Zeros(z - 1) + ds;
    }
  }

  lemma {:induction false} LeadingAfterZeros(z: nat, ds: seq<nat>)
    requires ds != [] ==> ds[0] != 0
    ensures Leading(Zeros(z) + ds) == z
  {
    if z > 0 {
      LeadingAfterZeros(z - 1, ds);
      assert (Zeros(z) + ds)[1..] == Zeros(z - 1) + ds;
    } else {
      assert Zeros(0) + ds == ds;
    }
  }

  /** Without a leading zero, digits are the canonical writing of their value. */
  lemma NoLeadingZero(ds: seq<nat>, base: nat)
    requires base >= 2 && InBase(ds, base) && (ds != [] ==> ds[0] != 0)
    ensures ds == Reverse(Digits(Be(ds, base), base))
  {
    var low := Reverse(ds);
    assert ds == Reverse(low);
    CanonicalIsDigits(low, base);
    BeOfReverse(low, base);
  }

  /** Splitting off the leading zeros leaves a canonical rest. */
  lemma SplitLeading(ds: seq<nat>, base: nat)
    requires base >= 2 && InBase(ds, base)
    ensures ds == Zeros(Leading(ds)) + Reverse(Digits(Be(ds, base), base))
  {
    var z := Leading(ds);
    var rest := ds[z..];
    assert ds == Zeros(z) + rest;
    BeAfterZeros(z, rest, base);
    NoLeadingZero(rest, base);
  }

  /** Changing base and back is the identity on every string of digits. */
  lemma RecodeRoundTrip(ds: seq<nat>, a: nat, b: nat)
    requires a >= 2 && b >= 2 && InBase(ds, a)
    ensures InBase(Recode(ds, a, b), b)
    ensures Recode(Recode(ds, a, b), b, a) == ds
  {
    var z, low := Leading(ds), Digits(Be(ds, a), b);
    var there := Recode(ds, a, b);
    assert InBase(there, b) by {
      forall i | 0 <= i < |there|
        ensures there[i] < b
      {
        if i >= z {
          assert there[i] == low[|low| - 1 - (i - z)];
        }
      }
    }
    BeAfterZeros(z, Reverse(low), b);
    BeOfReverse(low, b);
    LeadingAfterZeros(z, Reverse(low));
    SplitLeading(ds, a);
  }

  // ------------------------------------------------------------------ length

  lemma {:induction false} DigitsLength(n: nat, base: nat, m: nat)
    requires base >= 2 && n < Power(base, m)
    ensures |Digits(n, base)| <= m
    decreases m
  {
    if n > 0 {
      assert m > 0;
      QuotientBelow(n, base, Power(base, m - 1));
      DigitsLength(n / base, base, m - 1);
    }
  }

  lemma QuotientBelow(n: nat, base: nat, p: nat)
    requires base >= 2 && n < base * p
    ensures 0 <= n / base < p
  {
    FloorAdjoint(0, n, base);
    FloorAdjoint(p, n, base);
  }

  lemma {:induction false} BeBelow(ds: seq<nat>, base: nat)
    requires InBase(ds, base)
    ensures Be(ds, base) < Power(base, |ds|)
  {
    if ds != [] {
      BeBelow(ds[..|ds| - 1], base);
      OneDigitMore(base, Power(base, |ds| - 1), Be(ds[..|ds| - 1], base), ds[|ds| - 1]);
    }
  }

  lemma OneDigitMore(b: nat, p: nat, high: nat, d: nat)
    requires high < p && d < b
    ensures high * b + d < b * p
  {
    MulMono(high + 1, p, b);
  }

  /** 44 characters hold 32 bytes. */
  lemma WholeKeyFits()
    ensures Power(256, 32) <= Power(58, 44)
  {
    AllKeys();
    AllTexts();
  }

  lemma AllKeys()
    ensures Power(256, 32) == TWO_POW_256
  {
    assert Power(256, 4) == 0x1_0000_0000;
    PowerAdd(256, 4, 4);
    PowerAdd(256, 8, 8);
    PowerAdd(256, 16, 16);
  }

  lemma AllTexts()
    ensures Power(58, 44) > TWO_POW_256
  {
    assert Power(58, 5) == 656_356_768;
    assert Power(58, 11) > TWO_POW_64;
    PowerAdd(58, 11, 11);
    PowerAdd(58, 22, 22);
    SquareAbove(Power(58, 11), TWO_POW_64);
    SquareAbove(Power(58, 22), TWO_POW_128);
  }

  lemma SquareAbove(x: nat, y: nat)
    requires x > y
    ensures x * x > y * y
  {
  }

  /** Each byte less saves at least a character. */
  lemma {:induction false} BytesFit(n: nat)
    requires n <= 32
    ensures Power(256, n) <= Power(58, n + 12)
    decreases 32 - n
  {
    if n == 32 {
      WholeKeyFits();
    } else {
      BytesFit(n + 1);
    }
  }

  lemma {:induction false} PowerAdd(b: nat, m: nat, n: nat)
    ensures Power(b, m + n) == Power(b, m) * Power(b, n)
  {
    if m > 0 {
      PowerAdd(b, m - 1, n);
      Reassociate(b, Power(b, m - 1), Power(b, n));
    }
  }

  lemma Reassociate(b: nat, x: nat, y: nat)
    ensures b * (x * y) == b * x * y
  {
  }

  lemma RecodedLength(bytes: seq<nat>)
    requires |bytes| == 32 && InBase(bytes, 256)
    ensures 0 < |Recode(bytes, 256, 58)| <= 44
  {
    var z := Leading(bytes);
    var rest := bytes[z..];
    assert bytes == Zeros(z) + rest;
    BeAfterZeros(z, rest, 256);
    BeBelow(rest, 256);
    BytesFit(32 - z);
    DigitsLength(Be(bytes, 256), 58, 44 - z);
    SplitLeading(bytes, 256);
  }

  // ---------------------------------------------------------------- alphabet

  /** The 58 characters, run by run: no '0', 'I', 'O' or 'l'. */
  const RUNS: seq<string> := ["123456789", "ABCDEFGH", "JKLMN", "PQRSTUVWXYZ", "abcdefghijk", "mnopqrstuvwxyz"]

  /** `kAlphabet[d]`. */
  function Letter(d: nat): (c: char)
    requires d < 58
    ensures d == 0 <==> c == '1'
  {
    if d < 9 then ('1' as int + d) as char
    else if d < 17 then ('A' as int + d - 9) as char
    else if d < 22 then ('J' as int + d - 17) as char
    else if d < 33 then ('P' as int + d - 22) as char
    else if d < 44 then ('a' as int + d - 33) as char
    else ('m' as int + d - 44) as char
  }

  /** `Letter` spells exactly the six runs, one after the other. */
  lemma LettersSpellRuns(d: nat)
    requires d < 58
    ensures Letter(d)
         == if d < 9 then RUNS[0][d]
            else if d < 17 then RUNS[1][d - 9]
            else if d < 22 then RUNS[2][d - 17]
            else if d < 33 then RUNS[3][d - 22]
            else if d < 44 then RUNS[4][d - 33]
            else RUNS[5][d - 44]
  {
  }

  lemma LetterInjective(d: nat, e: nat)
    requires d < 58 && e < 58 && Letter(d) == Letter(e)
    ensures d == e
  {
  }

  /** The digit a character stands for, if it is in the alphabet. */
  ghost function Rank(c: char): (r: Option<nat>)
    ensures r.Some? ==> r.value < 58 && Letter(r.value) == c
    ensures r == None ==> forall d :: 0 <= d < 58 ==> Letter(d) != c
  {
    if d: nat :| d < 58 && Letter(d) == c then Some(d) else None
  }

  /** `strchr(kAlphabet, c)`: the first place of a character, which is the only one. */
  method StrChr(c: char) returns (r: Option<nat>)
    ensures r == Rank(c)
  {
    for i := 0 to 58
      invariant forall j :: 0 <= j < i ==> Letter(j) != c
    {
      if Letter(i) == c {
        LetterInjective(i, Rank(c).value);
        return Some(i);
      }
    }
    return None;
  }

  // ----------------------------------------------------------------- the text

  function Spell(ds: seq<nat>): (s: string)
    requires InBase(ds, 58)
    ensures |s| == |ds| && forall i :: 0 <= i < |ds| ==> s[i] == Letter(ds[i])
  {
    seq(|ds|, i requires 0 <= i < |ds| => Letter(ds[i]))
  }

  ghost predicate InAlphabet(s: string) {
    forall i :: 0 <= i < |s| ==> Rank(s[i]).Some?
  }

  ghost function Ranks(s: string): (ds: seq<nat>)
    requires InAlphabet(s)
    ensures |ds| == |s| && InBase(ds, 58) && forall i :: 0 <= i < |s| ==> ds[i] == Rank(s[i]).value
  {
    seq(|s|, i requires 0 <= i < |s| => Rank(s[i]).value)
  }

  lemma SpellThenRank(ds: seq<nat>)
    requires InBase(ds, 58)
    ensures InAlphabet(Spell(ds)) && Ranks(Spell(ds)) == ds
  {
    forall i | 0 <= i < |ds|
      ensures Rank(Spell(ds)[i]) == Some(ds[i])
    {
      LetterInjective(ds[i], Rank(Spell(ds)[i]).value);
    }
  }

  /** What `base58` writes for these bytes. */
  ghost function Text(bytes: seq<u8>): string {
    RecodeRoundTrip(bytes, 256, 58);
    Spell(Recode(bytes, 256, 58))
  }

  /** What `unbase58` reads: at most 44 characters, all of the alphabet, that stand for 32 bytes. */
  ghost function Key(s: string): Option<seq<nat>> {
    if s == "" || |s| > 44 || !InAlphabet(s) then None
    else
      var bytes := Recode(Ranks(s), 58, 256);
      if |bytes| == 32 then Some(bytes) else None
  }

  /** Every 32-byte key is read back from what was written for it. */
  lemma KeyOfText(bytes: seq<u8>)
    requires |bytes| == 32
    ensures Key(Text(bytes)) == Some(bytes)
  {
    RecodeRoundTrip(bytes, 256, 58);
    RecodedLength(bytes);
    SpellThenRank(Recode(bytes, 256, 58));
  }

  /** Every string that is read is the one that would be written. */
  lemma TextOfKey(s: string)
    requires Key(s).Some?
    ensures InBase(Key(s).value, 256) && Text(Key(s).value) == s
  {
    RecodeRoundTrip(Ranks(s), 58, 256);
  }

  /** The number digits stand for, place by place from the big end. */
  function Worth(ds: seq<nat>, base: nat): nat {
    if ds == [] then 0 else ds[0] * Power(base, |ds| - 1) + Worth(ds[1..], base)
  }

  lemma {:induction false} WorthNext(ds: seq<nat>, last: nat, base: nat)
    ensures Worth(ds + [last], base) == Worth(ds, base) * base + last
  {
    if ds == [] {
      assert ([] + [last])[1..] == [];
      assert Power(base, 0) == 1;
    } else {
      assert (ds + [last])[1..] == ds[1..] + [last];
      WorthNext(ds[1..], last, base);
      Shift(ds[0], Power(base, |ds| - 1), base, Worth(ds[1..], base));
    }
  }

  lemma Shift(d: nat, p: nat, base: nat, rest: nat)
    ensures d * (p * base) + rest * base == (d * p + rest) * base
  {
  }

  lemma {:induction false} BeIsWorth(ds: seq<nat>, base: nat)
    ensures Be(ds, base) == Worth(ds, base)
  {
    if ds != [] {
      BeIsWorth(ds[..|ds| - 1], base);
      assert ds[..|ds| - 1] + [ds[|ds| - 1]] == ds;
      WorthNext(ds[..|ds| - 1], ds[|ds| - 1], base);
    }
  }

  /** What is written is the key's own number, in letters worth their place in the
      alphabet from the big end, with one '1' in front for every leading zero byte. */
  lemma TextMeans(bytes: seq<u8>)
    ensures var s := Text(bytes);
            && InAlphabet(s)
            && Worth(Ranks(s), 58) == Worth(bytes, 256)
            && Leading(Ranks(s)) == Leading(bytes)
  {
    RecodeRoundTrip(bytes, 256, 58);
    var low := Digits(Be(bytes, 256), 58);
    SpellThenRank(Recode(bytes, 256, 58));
    LeadingAfterZeros(Leading(bytes), Reverse(low));
    BeAfterZeros(Leading(bytes), Reverse(low), 58);
    BeOfReverse(low, 58);
    BeIsWorth(bytes, 256);
    BeIsWorth(Ranks(Text(bytes)), 58);
  }

  /** Exactly the writings of 32-byte keys are read. */
  lemma ReadIff(s: string)
    ensures Key(s).Some? <==> exists bytes: seq<u8> :: |bytes| == 32 && Text(bytes) == s
  {
    if Key(s).Some? {
      TextOfKey(s);
      var bytes: seq<u8> := AsBytes(Key(s).value);
      assert Text(bytes) == s;
    }
    if exists bytes: seq<u8> :: |bytes| == 32 && Text(bytes) == s {
      var bytes: seq<u8> :| |bytes| == 32 && Text(bytes) == s;
      KeyOfText(bytes);
    }
  }

  function AsBytes(ds: seq<nat>): (bytes: seq<u8>)
    requires InBase(ds, 256)
    ensures bytes == ds
  {
    seq(|ds|, i requires 0 <= i < |ds| => ds[i])
  }

  // -------------------------------------------------------------- the two calls

  /** `base58`: the digits of all bytes, then one '1' per leading zero, then the digits big end first. */
  method Encode(bytes: seq<u8>) returns (out: string)
    ensures out == Text(bytes)
  {
    var digits: seq<nat> := [];
    for i := 0 to |bytes|
      invariant digits == Digits(Be(bytes[..i], 256), 58)
    {
      BeNext(bytes, i, 256);
      digits := MulAdd(digits, 256, 58, bytes[i]);
    }
    assert bytes[..|bytes|] == bytes;
    RecodeRoundTrip(bytes, 256, 58);
    out := Write(bytes, digits);
  }

  lemma BeNext(ds: seq<nat>, i: nat, base: nat)
    requires i < |ds|
    ensures Be(ds[..i + 1], base) == Be(ds[..i], base) * base + ds[i]
  {
    assert ds[..i + 1][..i] == ds[..i];
  }

  method Write(bytes: seq<u8>, digits: seq<nat>) returns (out: string)
    requires InBase(digits, 58)
    ensures InBase(Zeros(Leading(bytes)) + Reverse(digits), 58)
    ensures out == Spell(Zeros(Leading(bytes)) + Reverse(digits))
  {
    out := "";
    var z := 0;
    while z < |bytes| && bytes[z] == 0
      invariant z <= Leading(bytes)
      invariant out == Spell(Zeros(z))
    {
      out := out + "1";
      z := z + 1;
    }
    ghost var ones := out;
    var k := |digits|;
    while k > 0
      invariant 0 <= k <= |digits|
      invariant out == ones + Spell(Reverse(digits)[..|digits| - k])
    {
      k := k - 1;
      out := out + [Letter(digits[k])];
    }
    assert Reverse(digits)[..|digits|] == Reverse(digits);
  }

  /** The digits of the first `i` characters, in base 256. */
  ghost predicate ReadSoFar(s: string, i: nat, bytes: seq<nat>) {
    i <= |s| && InAlphabet(s[..i]) && bytes == Digits(Be(Ranks(s[..i]), 58), 256)
  }

  lemma ReadNext(s: string, i: nat, bytes: seq<nat>)
    requires i < |s| && ReadSoFar(s, i, bytes) && Rank(s[i]).Some?
    ensures Canonical(bytes, 256) && 0 <= Le(bytes, 256) * 58
    ensures ReadSoFar(s, i + 1, Digits(Le(bytes, 256) * 58 + Rank(s[i]).value, 256))
  {
    RanksNext(s, i);
    ReadOne(s, i + 1, Le(bytes, 256) * 58 + Rank(s[i]).value);
  }

  lemma ReadOne(s: string, i: nat, n: nat)
    requires i <= |s| && InAlphabet(s[..i]) && n == Be(Ranks(s[..i]), 58)
    ensures ReadSoFar(s, i, Digits(n, 256))
  {
  }

  lemma RanksNext(s: string, i: nat)
    requires i < |s| && InAlphabet(s[..i]) && Rank(s[i]).Some?
    ensures InAlphabet(s[..i + 1])
    ensures Be(Ranks(s[..i + 1]), 58) == Be(Ranks(s[..i]), 58) * 58 + Rank(s[i]).value
  {
    assert forall j :: 0 <= j < i ==> s[..i + 1][j] == s[..i][j];
    assert Ranks(s[..i + 1])[..i] == Ranks(s[..i]);
  }

  lemma ReadAll(s: string, bytes: seq<nat>)
    requires ReadSoFar(s, |s|, bytes)
    ensures InAlphabet(s) && bytes == Digits(Be(Ranks(s), 58), 256)
  {
    assert s[..|s|] == s;
  }

  lemma Decoded(s: string, bytes: seq<nat>)
    requires 0 < |s| <= 44 && InAlphabet(s)
    requires bytes == Zeros(Leading(Ranks(s))) + Reverse(Digits(Be(Ranks(s), 58), 256))
    ensures Key(s) == if |bytes| == 32 then Some(bytes) else None
  {
  }

  /** The digits of all characters in base 256, if all are letters. */
  method Magnitude(s: string) returns (r: Option<seq<nat>>)
    ensures r == None ==> !InAlphabet(s)
    ensures r.Some? ==> InAlphabet(s) && r.value == Digits(Be(Ranks(s), 58), 256)
  {
    var bytes: seq<nat> := [];
    for i := 0 to |s|
      invariant ReadSoFar(s, i, bytes)
    {
      var p := StrChr(s[i]);
      if p == None {
        return None;
      }
      ReadNext(s, i, bytes);
      bytes := MulAdd(bytes, 58, 256, p.value);
    }
    ReadAll(s, bytes);
    return Some(bytes);
  }

  /** `unbase58`: the digits of all characters, one zero byte per leading '1', big end first. */
  method Decode(s: string) returns (r: Option<seq<nat>>)
    ensures r == Key(s)
  {
    if s == "" || |s| > 44 {
      return None;
    }
    var magnitude := Magnitude(s);
    if magnitude == None {
      return None;
    }
    var bytes := Pad(s, magnitude.value);
    bytes := Reverse(bytes);
    Decoded(s, bytes);
    return if |bytes| == 32 then Some(bytes) else None;
  }

  method Pad(s: string, digits: seq<nat>) returns (bytes: seq<nat>)
    requires InAlphabet(s)
    ensures Reverse(bytes) == Zeros(Leading(Ranks(s))) + Reverse(digits)
  {
    bytes := digits;
    var z := 0;
    while z < |s| && s[z] == '1'
      invariant z <= Leading(Ranks(s))
      invariant bytes == digits + Zeros(z)
    {
      assert Letter(Ranks(s)[z]) == '1';
      bytes := bytes + [0];
      z := z + 1;
    }
    assert z < |s| ==> Letter(Ranks(s)[z]) != '1';
    assert Reverse(bytes) == Zeros(z) + Reverse(digits);
  }
}
