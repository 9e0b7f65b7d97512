/** The reader's own numbers in app/src/vesting_chain.cpp: its second accrual,
    computed in 128 bits only, and its decimal text. */
module Panel {
  import opened Arithmetic
  import opened Bits
  import opened Words
  import opened Wrappers
  import opened VestingProgram
  import opened VestingState
  import opened VestingChain
  import opened VestingSolvency
  import Schedules

  // ------------------------------------------------------------------ accrual

  /** a * n / d by whole and remainder, for n < d: every intermediate is a u128. */
  function MulDivFloor(a: u128, n: u64, d: u64): (v: u128)
    requires n < d
    ensures v == a * n / d
  {
    WholeAndRest(a, n, d);
    var whole: u128 := a / d * n;
    var rest: u128 := a % d * n;
    whole + rest / d
  }

  lemma WholeAndRest(a: u128, n: u64, d: u64)
    requires n < d
    ensures 0 <= a / d * n <= a
    ensures 0 <= a % d * n < TWO_POW_128
    ensures 0 <= a / d * n + a % d * n / d <= a
    ensures a / d * n + a % d * n / d == a * n / d
  {
    SplitQuotient(a, n, d);
    ProductBound(a % d, n, TWO_POW_64);
  }

  lemma SplitQuotient(a: nat, n: nat, d: nat)
    requires n < d
    ensures 0 <= a / d * n <= a
    ensures 0 <= a % d * n
    ensures a / d * n + a % d * n / d == a * n / d <= a
    ensures 0 <= a % d * n / d
  {
    var q, r := a / d, a % d;
    assert a == q * d + r;
    FloorAdjoint(0, a, d);
    MulMono(0, q, n);
    MulMono(n, d, q);
    var s := r * n;
    MulMono(0, r, n);
    assert s == s / d * d + s % d;
    assert a * n == (q * n + s / d) * d + s % d by {
      assert a * n == q * d * n + s;
      assert q * d * n == q * n * d;
    }
    DivUnique(a * n, d, q * n + s / d, s % d);
    FloorAdjoint(0, s, d);
    MulMono(n, d, r);
    FloorAdjoint(s / d, s, d);
    MulCancel(s / d, r, d);
  }

  /** `vestedAt`: what the panel shows as vested at `now`. */
  function PanelVested(s: VestingSchedule, now: u64): u128
    requires Params(s)
  {
    if s.kind == 2 then
      if s.tranches == 0 then 0
      else
        var done := Popcount(s.signalled);
        if done >= s.tranches then s.total else MulDivFloor(s.total, done, s.tranches)
    else
      var t := if s.cancelledAt != 0 then (if now < s.cancelledAt then now else s.cancelledAt) else now;
      if s.kind == 0 && t < s.cliff then 0
      else if t <= s.start then 0
      else if t >= s.end then s.total
      else MulDivFloor(s.total, t - s.start, s.end - s.start)
  }

  lemma PanelAgrees(s: VestingSchedule, now: u64)
    requires Params(s)
    ensures Vested(s, now) == Ok(PanelVested(s, now))
  {
    VestedSucceeds(s, now);
    if s.kind == 2 {
      PopcountBound(s.signalled, s.tranches);
      ShareOfTotal(s.total, Popcount(s.signalled), s.tranches);
    } else {
      var t := if s.cancelledAt != 0 && s.cancelledAt < now then s.cancelledAt else now;
      if s.start < t < s.end {
        Schedules.InsideSpan(s.start, s.end, t, s.total);
      }
    }
  }

  /** On every schedule the program can have stored, at every time, the panel
      shows what the program would compute through its 256-bit division. */
  lemma PanelAgreesOnEveryRun(env: Env, c0: Chain, events: seq<Event>, k: AccountId, now: u64)
    requires Genesis(c0) && ValidRun(env, c0, events) && k in Run(env, c0, events).shards
    ensures var s := Run(env, c0, events).shards[k];
            Params(s) && Vested(s, now) == Ok(PanelVested(s, now))
  {
    EscrowsAlwaysCover(env, c0, events);
    PanelAgrees(Run(env, c0, events).shards[k], now);
  }

  // ------------------------------------------------------------ decimal text

  predicate IsDigit(c: char) {
    '0' <= c <= '9'
  }

  function DigitValue(c: char): (d: nat)
    requires IsDigit(c)
    ensures d < 10
  {
    c as int - '0' as int
  }

  function DigitChar(d: nat): (c: char)
    requires d < 10
    ensures IsDigit(c) && DigitValue(c) == d
  {
    (d + '0' as int) as char
  }

  predicate IsNumeral(s: string) {
    s != "" && forall i :: 0 <= i < |s| ==> IsDigit(s[i])
  }

  /** The number a string of digits writes. */
  function Value(s: string): nat
    requires forall i :: 0 <= i < |s| ==> IsDigit(s[i])
  {
    if s == "" then 0 else Value(s[..|s| - 1]) * 10 + DigitValue(s[|s| - 1])
  }

  lemma {:induction false} ValuePrepend(c: char, s: string)
    requires IsDigit(c) && forall i :: 0 <= i < |s| ==> IsDigit(s[i])
    ensures forall i :: 0 <= i < |[c] + s| ==> IsDigit(([c] + s)[i])
    ensures Value([c] + s) == DigitValue(c) * Pow10(|s|) + Value(s)
  {
    var cs := [c] + s;
    assert forall i :: 0 <= i < |cs| ==> cs[i] == if i == 0 then c else s[i - 1];
    if s == "" {
      assert cs[..0] == "";
    } else {
      var n := |s| - 1;
      ValuePrepend(c, s[..n]);
      assert cs[..n + 1] == [c] + s[..n];
      Tenfold(DigitValue(c), Pow10(n));
    }
  }

  lemma Tenfold(d: nat, p: nat)
    ensures d * p * 10 == d * (p * 10)
  {
  }

  function Pow10(n: nat): nat {
    if n == 0 then 1 else Pow10(n - 1) * 10
  }

  /** The shortest way to write a number. */
  predicate IsPlain(s: string) {
    IsNumeral(s) && (|s| > 1 ==> s[0] != '0')
  }

  predicate Peeled(v: nat, rest: nat, out: string) {
    && (forall i :: 0 <= i < |out| ==> IsDigit(out[i]))
    && rest * Pow10(|out|) + Value(out) == v
  }

  lemma PeelOne(v: nat, rest: nat, out: string)
    requires Peeled(v, rest, out)
    ensures Peeled(v, rest / 10, [DigitChar(rest % 10)] + out)
  {
    ValuePrepend(DigitChar(rest % 10), out);
    Regroup(rest / 10, rest % 10, Pow10(|out|));
  }

  lemma Regroup(q: nat, r: nat, p: nat)
    ensures (q * 10 + r) * p == q * (p * 10) + r * p
  {
  }

  /** `dec`: peels digits off the low end and prepends them. */
  method Dec(v: u128) returns (out: string)
    ensures IsPlain(out) && Value(out) == v
  {
    if v == 0 {
      assert "0"[..0] == "";
      return "0";
    }
    out := "";
    var rest := v;
    while rest > 0
      invariant Peeled(v, rest, out)
      invariant rest == 0 ==> out != "" && out[0] != '0'
    {
      PeelOne(v, rest, out);
      out := [DigitChar(rest % 10)] + out;
      rest := rest / 10;
    }
  }

  /** A number is written plainly in one way only, so reading a plain numeral and
      writing it again gives it back. */
  lemma {:induction false} PlainIsUnique(s: string, t: string)
    requires IsPlain(s) && IsPlain(t) && Value(s) == Value(t)
    ensures s == t
    decreases |s|
  {
    var m, n := |s| - 1, |t| - 1;
    assert s == s[..m] + [s[m]] && t == t[..n] + [t[n]];
    assert Value(s) == Value(s[..m]) * 10 + DigitValue(s[m]);
    assert Value(t) == Value(t[..n]) * 10 + DigitValue(t[n]);
    assert s[m] == t[n] && Value(s[..m]) == Value(t[..n]);
    if m > 0 {
      PositiveValue(s[..m]);
    }
    if n > 0 {
      PositiveValue(t[..n]);
    }
    if m > 0 && n > 0 {
      PlainIsUnique(s[..m], t[..n]);
    }
  }

  lemma {:induction false} PositiveValue(s: string)
    requires IsNumeral(s) && s[0] != '0'
    ensures Value(s) > 0
  {
    if |s| > 1 {
      PositiveValue(s[..|s| - 1]);
    }
  }

  /** Which characters are decimal digits, and of what value: `isDigit` and
      `digitValue`, which know the digits of every script. */
  type Digits = f: char -> Option<nat> | forall c :: f(c).Some? ==> f(c).value < 10 witness (_ => None)

  predicate AllDigits(digits: Digits, s: string) {
    forall i :: 0 <= i < |s| ==> digits(s[i]).Some?
  }

  /** The same number in the digits '0' to '9'. */
  function Ascii(digits: Digits, s: string): (t: string)
    requires AllDigits(digits, s)
    ensures |t| == |s| && forall i :: 0 <= i < |s| ==> IsDigit(t[i]) && DigitValue(t[i]) == digits(s[i]).value
  {
    seq(|s|, i requires 0 <= i < |s| => DigitChar(digits(s[i]).value))
  }

  /** Where '0' to '9' have their own values, plain text is read as it stands. */
  lemma AsciiIsItself(digits: Digits, s: string)
    requires forall c :: IsDigit(c) ==> digits(c) == Some(DigitValue(c))
    requires forall i :: 0 <= i < |s| ==> IsDigit(s[i])
    ensures AllDigits(digits, s) && Ascii(digits, s) == s
  {
  }

  /** `parseDec`: accepts exactly the numerals below 2^128. The overflow test
      divides a sum that may already have wrapped, and still never errs. */
  method ParseDec(digits: Digits, s: string) returns (r: Option<u128>)
    ensures r.Some? <==> s != "" && AllDigits(digits, s) && Value(Ascii(digits, s)) < TWO_POW_128
    ensures r.Some? ==> r.value == Value(Ascii(digits, s))
  {
    var v: u128 := 0;
    if s == "" {
      return None;
    }
    for i := 0 to |s|
      invariant AllDigits(digits, s[..i])
      invariant Value(Ascii(digits, s[..i])) == v
    {
      if digits(s[i]) == None {
        return None;
      }
      var d := digits(s[i]).value;
      OneDigitMore(digits, s, i);
      // v * 10 + digit in 128 bits.
      var n: u128 := (v * 10 % TWO_POW_128 + d) % TWO_POW_128;
      WrapIsSeen(v, d);
      if n / 10 != v {
        AsciiPrefix(digits, s, i + 1);
        return None;
      }
      v := n;
    }
    assert s[..|s|] == s;
    return Some(v);
  }

  lemma OneDigitMore(digits: Digits, s: string, i: nat)
    requires i < |s| && AllDigits(digits, s[..i]) && digits(s[i]).Some?
    ensures AllDigits(digits, s[..i + 1])
    ensures Value(Ascii(digits, s[..i + 1])) == Value(Ascii(digits, s[..i])) * 10 + digits(s[i]).value
  {
    assert forall j :: 0 <= j < i ==> s[..i + 1][j] == s[..i][j];
    var t := Ascii(digits, s[..i + 1]);
    assert forall j :: 0 <= j < i ==> DigitValue(t[j]) == DigitValue(Ascii(digits, s[..i])[j]);
    assert t[..i] == Ascii(digits, s[..i]);
  }

  lemma AsciiPrefix(digits: Digits, s: string, i: nat)
    requires i <= |s| && s != "" && AllDigits(digits, s[..i])
    ensures AllDigits(digits, s) ==> Value(Ascii(digits, s)) >= Value(Ascii(digits, s[..i]))
  {
    if AllDigits(digits, s) {
      var t := Ascii(digits, s);
      assert forall j :: 0 <= j < i ==> DigitValue(t[j]) == DigitValue(Ascii(digits, s[..i])[j]);
      assert t[..i] == Ascii(digits, s[..i]);
      PrefixBelow(t, i);
    }
  }

  lemma WrapIsSeen(v: u128, d: nat)
    requires d < 10
    ensures (v * 10 % TWO_POW_128 + d) % TWO_POW_128 / 10 == v <==> v * 10 + d < TWO_POW_128
    ensures v * 10 + d < TWO_POW_128 ==> (v * 10 % TWO_POW_128 + d) % TWO_POW_128 == v * 10 + d
  {
  }

  /** A prefix that is already too large makes the whole numeral too large. */
  lemma {:induction false} PrefixBelow(s: string, i: nat)
    requires i <= |s| && forall j :: 0 <= j < i ==> IsDigit(s[..i][j])
    ensures IsNumeral(s) ==> Value(s) >= Value(s[..i])
    decreases |s|
  {
    if IsNumeral(s) {
      if i == |s| {
        assert s[..i] == s;
      } else {
        var p := s[..|s| - 1];
        assert p[..i] == s[..i];
        if p != "" {
          PrefixBelow(p, i);
        }
      }
    }
  }
}
