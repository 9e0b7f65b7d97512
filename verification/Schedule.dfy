/** The vesting position of src/vesting.rs: accrual, claims, cancellation and
    milestone signals. `Position` is its value, the class at the end updates it
    in place. */
module Schedules {
  import opened Arithmetic
  import opened Bits
  import opened WideInt
  import opened Words
  import opened Wrappers

  const MAX_MILESTONES := 64

  datatype Kind = CliffLinear | Linear | Milestone

  datatype Position = Position(
    kind: Kind,
    start: u64,
    cliff: u64,
    end: u64,
    total: u128,
    claimed: u128,
    cancelable: bool,
    transferable: bool,
    cancelledAt: Option<u64>,
    tranches: seq<u128>,
    signalled: u64)

  datatype CancelSplit = CancelSplit(alreadyClaimed: u128, toBeneficiary: u128, toCreator: u128) {
    function Sum(): int {
      alreadyClaimed + toBeneficiary + toCreator
    }
  }

  // ------------------------------------------------------------ construction

  function NewCliffLinear(start: u64, cliff: u64, end: u64, total: u128): Result<Position, CurveError> {
    if total == 0 || !(start <= cliff < end) then Err(ZeroAmount)
    else Ok(Position(Kind.CliffLinear, start, cliff, end, total, 0, true, false, None, [], 0))
  }

  function NewLinear(start: u64, end: u64, total: u128): Result<Position, CurveError> {
    if total == 0 || start >= end then Err(ZeroAmount)
    else Ok(Position(Kind.Linear, start, start, end, total, 0, true, false, None, [], 0))
  }

  function Sum(ts: seq<u128>): nat {
    if ts == [] then 0 else Sum(ts[..|ts| - 1]) + ts[|ts| - 1]
  }

  /** The first tranche, from the left, that is zero or takes the total past 128 bits decides. */
  function CheckedTotal(ts: seq<u128>): (r: Result<u128, CurveError>)
    ensures r.Ok? <==> (forall i :: 0 <= i < |ts| ==> ts[i] > 0) && Sum(ts) < TWO_POW_128
    ensures r.Ok? ==> r.value == Sum(ts)
  {
    if ts == [] then Ok(0)
    else
      var last := ts[|ts| - 1];
      assert forall i :: 0 <= i < |ts| ==> ts[i] == if i == |ts| - 1 then last else ts[..|ts| - 1][i];
      match CheckedTotal(ts[..|ts| - 1])
      case Err(e) => Err(e)
      case Ok(t) =>
        if last == 0 then Err(ZeroAmount)
        else if t + last >= TWO_POW_128 then Err(Overflow)
        else Ok(t + last)
  }

  lemma {:induction false} CheckedTotalStops(ts: seq<u128>, i: nat)
    requires i <= |ts| && CheckedTotal(ts[..i]).Err?
    ensures CheckedTotal(ts) == CheckedTotal(ts[..i])
    decreases |ts|
  {
    if i < |ts| {
      assert ts[..|ts| - 1][..i] == ts[..i];
      CheckedTotalStops(ts[..|ts| - 1], i);
    } else {
      assert ts[..i] == ts;
    }
  }

  /** The length is truncated to 32 bits before it is compared. */
  function NewMilestone(ts: seq<u128>): Result<Position, CurveError> {
    if ts == [] || |ts| % TWO_POW_32 > MAX_MILESTONES then Err(ZeroAmount)
    else
      match CheckedTotal(ts)
      case Err(e) => Err(e)
      case Ok(t) => Ok(Position(Kind.Milestone, 0, 0, 0, t, 0, true, false, None, ts, 0))
  }

  lemma CheckedTotalNext(ts: seq<u128>, i: nat)
    requires i < |ts| && CheckedTotal(ts[..i]).Ok?
    ensures var t := CheckedTotal(ts[..i]).value;
            CheckedTotal(ts[..i + 1]) ==
            if ts[i] == 0 then Err(ZeroAmount) else if t + ts[i] >= TWO_POW_128 then Err(Overflow) else Ok(t + ts[i])
  {
    assert ts[..i + 1][..i] == ts[..i];
  }

  /** Sums the tranches in a loop that stops at the first bad one. */
  method BuildMilestone(ts: seq<u128>) returns (r: Result<Position, CurveError>)
    ensures r == NewMilestone(ts)
  {
    if ts == [] || |ts| % TWO_POW_32 > MAX_MILESTONES {
      return Err(ZeroAmount);
    }
    var total: u128 := 0;
    for i := 0 to |ts|
      invariant CheckedTotal(ts[..i]) == Ok(total)
    {
      CheckedTotalNext(ts, i);
      if ts[i] == 0 {
        CheckedTotalStops(ts, i + 1);
        return Err(ZeroAmount);
      }
      if total + ts[i] >= TWO_POW_128 {
        CheckedTotalStops(ts, i + 1);
        return Err(Overflow);
      }
      total := total + ts[i];
    }
    assert ts[..|ts|] == ts;
    return Ok(Position(Kind.Milestone, 0, 0, 0, total, 0, true, false, None, ts, 0));
  }

  // ------------------------------------------------------------------ accrual

  /** `linear_between`: the division is only reached strictly inside the span. */
  function LinearBetween(from: u64, to: u64, now: u64, total: u128): (v: u128) {
    if now <= from then 0
    else if now >= to then total
    else
      match FloorQuotient(total, now - from, to - from)
      case Ok(v) => v
      case Err(_) => 0
  }

  /** Strictly inside the span the division never fails and never reaches past the total. */
  lemma InsideSpan(from: u64, to: u64, now: u64, total: u128)
    requires from < now < to
    ensures FloorQuotient(total, now - from, to - from) == Ok(total * (now - from) / (to - from))
    ensures 0 <= total * (now - from) / (to - from) <= total
  {
    MulMono(now - from, to - from, total);
    FloorAdjoint(total + 1, total * (now - from), to - from);
    FloorAdjoint(0, total * (now - from), to - from);
    assert (total + 1) * (to - from) == total * (to - from) + (to - from);
  }

  lemma LinearMono(from: u64, to: u64, t: u64, t': u64, total: u128)
    requires t <= t'
    ensures LinearBetween(from, to, t, total) <= LinearBetween(from, to, t', total) <= total
  {
    if from < t' < to {
      InsideSpan(from, to, t', total);
      if from < t {
        InsideSpan(from, to, t, total);
        MulMono(t - from, t' - from, total);
        DivMono(total * (t - from), total * (t' - from), to - from);
      }
    }
    if from < t < to {
      InsideSpan(from, to, t, total);
    }
  }

  /** At every time: nothing up to the start, all from the end on, and in between the
      floored share of the span that has passed. */
  lemma LinearIs(from: u64, to: u64, now: u64, total: u128)
    requires from < to
    ensures LinearBetween(from, to, now, total)
         == if now <= from then 0 else if now >= to then total else total * (now - from) / (to - from)
  {
    if from < now < to {
      InsideSpan(from, to, now, total);
    }
  }

  /** The tranches whose bit is set. */
  function SignalledSum(ts: seq<u128>, signalled: u64): nat {
    if ts == [] then 0
    else
      var n := |ts| - 1;
      SignalledSum(ts[..n], signalled) + if Bit(signalled, n) then ts[n] else 0
  }

  function VestedAt(s: Position, now: u64): (v: nat)
    ensures s.kind != Kind.Milestone ==> v < TWO_POW_128
  {
    var t := match s.cancelledAt case Some(c) => (if now < c then now else c) case None => now;
    match s.kind
    case Milestone => SignalledSum(s.tranches, s.signalled)
    case Linear => LinearBetween(s.start, s.end, t, s.total)
    case CliffLinear => if t < s.cliff then 0 else LinearBetween(s.start, s.end, t, s.total)
  }

  /** What the constructors check, and the calls below keep. */
  predicate Shape(s: Position) {
    && 0 < s.total
    && match s.kind
       case CliffLinear => s.start <= s.cliff < s.end
       case Linear => s.start < s.end
       case Milestone => 0 < |s.tranches| <= MAX_MILESTONES && Sum(s.tranches) == s.total && s.signalled < Pow2(|s.tranches|)
  }

  predicate WellFormed(s: Position) {
    Shape(s) && s.claimed <= s.total
  }

  /** What a new position vests, by its own terms; until something is signalled a
      milestone position vests nothing. All of them start unclaimed, cancelable and
      not transferable. */
  lemma NewPositionVests(start: u64, cliff: u64, end: u64, total: u128, ts: seq<u128>, now: u64)
    ensures NewCliffLinear(start, cliff, end, total).Ok? <==> total > 0 && start <= cliff < end
    ensures NewCliffLinear(start, cliff, end, total).Ok? ==>
              var s := NewCliffLinear(start, cliff, end, total).value;
              && Untouched(s) && s.total == total
              && VestedAt(s, now) == if now < cliff then 0 else if now >= end then total else total * (now - start) / (end - start)
    ensures NewLinear(start, end, total).Ok? <==> total > 0 && start < end
    ensures NewLinear(start, end, total).Ok? ==>
              var s := NewLinear(start, end, total).value;
              && Untouched(s) && s.total == total
              && VestedAt(s, now) == if now < start then 0 else if now >= end then total else total * (now - start) / (end - start)
    ensures NewMilestone(ts).Ok? <==>
              ts != [] && |ts| % TWO_POW_32 <= 64 && (forall i :: 0 <= i < |ts| ==> ts[i] > 0) && Sum(ts) < TWO_POW_128
    ensures NewMilestone(ts).Ok? ==>
              var s := NewMilestone(ts).value;
              Untouched(s) && s.total == Sum(ts) && s.tranches == ts && VestedAt(s, now) == 0
  {
    if start < end {
      LinearIs(start, end, now, total);
      DivUnique(total * 0, end - start, 0, 0);
    }
    NothingSignalled(ts);
  }

  predicate Untouched(s: Position) {
    s.claimed == 0 && s.cancelable && !s.transferable && s.cancelledAt == None && s.signalled == 0
  }

  lemma {:induction false} NothingSignalled(ts: seq<u128>)
    ensures SignalledSum(ts, 0) == 0
  {
    if ts != [] {
      NothingSignalled(ts[..|ts| - 1]);
      assert !Bit(0, |ts| - 1);
    }
  }

  /** Every constructor yields a well-formed position, except that the tranche
      limit holds exactly when the length was not truncated. */
  lemma ConstructorsAreWellFormedIff(start: u64, cliff: u64, end: u64, total: u128, ts: seq<u128>)
    ensures NewCliffLinear(start, cliff, end, total).Ok? ==> WellFormed(NewCliffLinear(start, cliff, end, total).value)
    ensures NewLinear(start, end, total).Ok? ==> WellFormed(NewLinear(start, end, total).value)
    ensures NewMilestone(ts).Ok? ==> (WellFormed(NewMilestone(ts).value) <==> |ts| < TWO_POW_32)
  {
    if NewMilestone(ts).Ok? {
      assert Pow2(0) == 1;
      Pow2Mono(0, |ts|);
      PositiveSum(ts);
      DivUnique(|ts|, TWO_POW_32, |ts| / TWO_POW_32, |ts| % TWO_POW_32);
    }
  }

  lemma PositiveSum(ts: seq<u128>)
    requires ts != [] && forall i :: 0 <= i < |ts| ==> ts[i] > 0
    ensures Sum(ts) > 0
  {
  }

  /** 2^32 tranches of one unit are taken for none too many. */
  lemma LongListIsAccepted()
    ensures NewMilestone(Ones(TWO_POW_32)).Ok?
    ensures !WellFormed(NewMilestone(Ones(TWO_POW_32)).value)
  {
    SumOfOnes(TWO_POW_32);
    assert TWO_POW_32 % TWO_POW_32 == 0;
  }

  function Ones(n: nat): (ts: seq<u128>)
    ensures |ts| == n && forall i :: 0 <= i < n ==> ts[i] == 1
  {
    seq(n, _ => 1)
  }

  lemma {:induction false} SumOfOnes(n: nat)
    ensures Sum(Ones(n)) == n
  {
    if n > 0 {
      SumOfOnes(n - 1);
      assert Ones(n)[..n - 1] == Ones(n - 1);
    }
  }

  lemma {:induction false} SignalledAtMostSum(ts: seq<u128>, signalled: u64)
    ensures SignalledSum(ts, signalled) <= Sum(ts)
  {
    if ts != [] {
      SignalledAtMostSum(ts[..|ts| - 1], signalled);
    }
  }

  lemma {:induction false} AllSignalled(ts: seq<u128>, signalled: u64)
    requires forall i :: 0 <= i < |ts| ==> Bit(signalled, i)
    ensures SignalledSum(ts, signalled) == Sum(ts)
  {
    if ts != [] {
      AllSignalled(ts[..|ts| - 1], signalled);
    }
  }

  /** Vesting never goes backwards, never passes the total, and a time schedule
      that is not cancelled has vested all of it from its end on. */
  lemma VestedMono(s: Position, t: u64, t': u64)
    requires Shape(s) && t <= t'
    ensures VestedAt(s, t) <= VestedAt(s, t') <= s.total
    ensures s.kind != Kind.Milestone && s.cancelledAt == None && s.end <= t' ==> VestedAt(s, t') == s.total
    ensures s.cancelledAt.Some? && s.cancelledAt.value <= t ==> VestedAt(s, t') == VestedAt(s, t)
  {
    match s.kind
    case Milestone => SignalledAtMostSum(s.tranches, s.signalled);
    case _ =>
      var c := s.cancelledAt;
      var u := if c.Some? && c.value < t then c.value else t;
      var u' := if c.Some? && c.value < t' then c.value else t';
      LinearMono(s.start, s.end, u, u', s.total);
  }

  // ------------------------------------------------------------------- calls

  function ClaimableAt(s: Position, now: u64): nat {
    if VestedAt(s, now) <= s.claimed then 0 else VestedAt(s, now) - s.claimed
  }

  function Claim(s: Position, now: u64): (Position, Result<u128, CurveError>)
    requires WellFormed(s)
  {
    VestedMono(s, now, now);
    var amount := ClaimableAt(s, now);
    if amount == 0 then (s, Err(ZeroAmount)) else (s.(claimed := s.claimed + amount), Ok(amount))
  }

  function Cancel(s: Position, now: u64): (Position, Result<CancelSplit, CurveError>)
    requires WellFormed(s)
  {
    VestedMono(s, now, now);
    if !s.cancelable || s.cancelledAt.Some? then (s, Err(ZeroAmount))
    else
      (s.(cancelledAt := Some(now)), Ok(CancelSplit(s.claimed, ClaimableAt(s, now), s.total - VestedAt(s, now))))
  }

  function Signal(s: Position, index: u32): (Position, Result<u128, CurveError>)
    requires WellFormed(s)
  {
    if s.kind != Kind.Milestone || s.cancelledAt.Some? then (s, Err(ZeroAmount))
    else if index >= |s.tranches| then (s, Err(ExceedsSaleReserve))
    else if Bit(s.signalled, index) then (s, Err(SlippageExceeded))
    else
      SignalFits(s, index);
      (s.(signalled := s.signalled + Pow2(index)), Ok(s.tranches[index]))
  }

  lemma SignalFits(s: Position, index: nat)
    requires WellFormed(s) && s.kind == Kind.Milestone && index < |s.tranches| && !Bit(s.signalled, index)
    ensures 0 <= s.signalled + Pow2(index) < Pow2(|s.tranches|) <= TWO_POW_64
  {
    SetBelow(s.signalled, index, |s.tranches|);
    Pow2Mono(|s.tranches|, 64);
    Pow2At64();
  }

  /** A claim pays what has vested and was not claimed, refused exactly when that is
      nothing; and a signal is accepted exactly for a tranche of an uncancelled
      milestone position that was not signalled before. */
  lemma ClaimsAndSignalsAre(s: Position, now: u64, index: u32)
    requires WellFormed(s)
    ensures VestedAt(s, now) <= s.claimed ==> Claim(s, now) == (s, Err(ZeroAmount))
    ensures VestedAt(s, now) > s.claimed ==>
              0 <= VestedAt(s, now) - s.claimed < TWO_POW_128 && VestedAt(s, now) < TWO_POW_128
              && Claim(s, now) == (s.(claimed := VestedAt(s, now)), Ok(VestedAt(s, now) - s.claimed))
    ensures Signal(s, index).1.Ok? <==>
              s.kind == Kind.Milestone && s.cancelledAt == None && index < |s.tranches| && !Bit(s.signalled, index)
    ensures Signal(s, index).1.Err? ==>
              Signal(s, index) ==
              (s, Err(if s.kind != Kind.Milestone || s.cancelledAt.Some? then ZeroAmount
                      else if index >= |s.tranches| then ExceedsSaleReserve else SlippageExceeded))
  {
    VestedMono(s, now, now);
  }

  /** Every call keeps a position well formed, and a refused one leaves it alone. */
  lemma CallsKeepWellFormed(s: Position, now: u64, index: u32)
    requires WellFormed(s)
    ensures WellFormed(Claim(s, now).0) && (Claim(s, now).1.Err? ==> Claim(s, now).0 == s)
    ensures WellFormed(Cancel(s, now).0) && (Cancel(s, now).1.Err? ==> Cancel(s, now).0 == s)
    ensures WellFormed(Signal(s, index).0) && (Signal(s, index).1.Err? ==> Signal(s, index).0 == s)
  {
    VestedMono(s, now, now);
    if Signal(s, index).1.Ok? {
      SignalFits(s, index);
    }
  }

  /** A signal unlocks exactly its own tranche, once: the same signal again is refused. */
  lemma SignalUnlocksItsTranche(s: Position, index: u32, now: u64)
    requires WellFormed(s) && Signal(s, index).1.Ok?
    ensures var s' := Signal(s, index).0;
            && VestedAt(s', now) == VestedAt(s, now) + Signal(s, index).1.value
            && Signal(s, index).1.value == s.tranches[index]
            && s' == s.(signalled := s'.signalled) && Bit(s'.signalled, index)
            && WellFormed(s')
            && Signal(s', index) == (s', Err(SlippageExceeded))
  {
    CallsKeepWellFormed(s, now, index);
    SetBitOthers(s.signalled, index, index);
    SumAfterSignal(s.tranches, s.signalled, index, |s.tranches|);
    assert s.tranches[..|s.tranches|] == s.tranches;
  }

  lemma {:induction false} SumAfterSignal(ts: seq<u128>, signalled: u64, index: nat, n: nat)
    requires index < |ts| && n <= |ts| && !Bit(signalled, index) && signalled + Pow2(index) < TWO_POW_64
    ensures SignalledSum(ts[..n], signalled + Pow2(index))
         == SignalledSum(ts[..n], signalled) + if index < n then ts[index] else 0
  {
    if n > 0 {
      assert ts[..n][..n - 1] == ts[..n - 1];
      SetBitOthers(signalled, index, n - 1);
      SumAfterSignal(ts, signalled, index, n - 1);
    }
  }

  /** A milestone position is fully vested once every tranche is signalled. */
  lemma MilestonesComplete(s: Position, now: u64)
    requires WellFormed(s) && s.kind == Kind.Milestone && Popcount(s.signalled) == |s.tranches|
    ensures VestedAt(s, now) == s.total
  {
    PopcountBound(s.signalled, |s.tranches|);
    AllOnes(s.signalled, |s.tranches|);
    AllSignalled(s.tranches, s.signalled);
  }

  // -------------------------------------------------------- lists of claims

  /** The position and the sum paid after claiming at each of the times, in the order given. */
  function ClaimAll(s: Position, times: seq<u64>): (r: (Position, nat))
    requires WellFormed(s)
    ensures WellFormed(r.0)
    decreases |times|
  {
    if times == [] then (s, 0)
    else
      var (s1, paid) := Claim(s, times[0]);
      CallsKeepWellFormed(s, times[0], 0);
      var (s2, rest) := ClaimAll(s1, times[1..]);
      (s2, rest + match paid case Ok(a) => a case Err(_) => 0)
  }

  function MaxVested(s: Position, times: seq<u64>): nat
    decreases |times|
  {
    if times == [] then 0
    else
      var rest := MaxVested(s, times[1..]);
      if VestedAt(s, times[0]) > rest then VestedAt(s, times[0]) else rest
  }

  lemma {:induction false} MaxVestedIsMax(s: Position, times: seq<u64>)
    ensures forall i :: 0 <= i < |times| ==> VestedAt(s, times[i]) <= MaxVested(s, times)
    ensures times != [] ==> exists i :: 0 <= i < |times| && VestedAt(s, times[i]) == MaxVested(s, times)
    decreases |times|
  {
    if times != [] {
      MaxVestedIsMax(s, times[1..]);
      forall i | 0 <= i < |times|
        ensures VestedAt(s, times[i]) <= MaxVested(s, times)
      {
        if i > 0 {
          assert times[i] == times[1..][i - 1];
        }
      }
      if VestedAt(s, times[0]) == MaxVested(s, times) {
      } else {
        var j :| 0 <= j < |times[1..]| && VestedAt(s, times[1..][j]) == MaxVested(s, times[1..]);
        assert times[j + 1] == times[1..][j];
      }
    }
  }

  /** Whatever the order of the times, claims pay up to the largest amount vested among them. */
  lemma {:induction false} ClaimsReachTheMax(s: Position, times: seq<u64>)
    requires WellFormed(s)
    ensures var (s', paid) := ClaimAll(s, times);
            && s'.claimed == s.claimed + paid
            && s' == s.(claimed := s'.claimed)
            && s'.claimed == if MaxVested(s, times) > s.claimed then MaxVested(s, times) else s.claimed
    decreases |times|
  {
    if times != [] {
      CallsKeepWellFormed(s, times[0], 0);
      var s1 := Claim(s, times[0]).0;
      ClaimsReachTheMax(s1, times[1..]);
      SameAccrual(s, s1, times[1..]);
    }
  }

  /** Accrual does not look at what was claimed. */
  lemma {:induction false} SameAccrual(s: Position, s1: Position, times: seq<u64>)
    requires s1 == s.(claimed := s1.claimed)
    ensures MaxVested(s, times) == MaxVested(s1, times)
    decreases |times|
  {
    if times != [] {
      SameAccrual(s, s1, times[1..]);
    }
  }

  /** Claims on a fresh position sum to the largest vested amount, and to the
      total exactly, with no dust left, once one time reaches the end. */
  lemma ClaimsSumExactly(s: Position, times: seq<u64>)
    requires WellFormed(s) && s.claimed == 0
    ensures ClaimAll(s, times).1 == MaxVested(s, times) <= s.total
    ensures s.kind != Kind.Milestone && s.cancelledAt == None && (exists i :: 0 <= i < |times| && times[i] >= s.end) ==>
              ClaimAll(s, times).1 == s.total
  {
    ClaimsReachTheMax(s, times);
    MaxVestedIsMax(s, times);
    if times != [] {
      var i :| 0 <= i < |times| && VestedAt(s, times[i]) == MaxVested(s, times);
      VestedMono(s, times[i], times[i]);
    }
    if s.kind != Kind.Milestone && s.cancelledAt == None && exists i :: 0 <= i < |times| && times[i] >= s.end {
      var i :| 0 <= i < |times| && times[i] >= s.end;
      VestedMono(s, times[i], times[i]);
    }
  }

  // ------------------------------------------------------------ cancellation

  /** The three parts sum to the total exactly when nothing beyond the amount
      vested at the cancellation was claimed before it. */
  lemma SplitSumsIff(s: Position, now: u64)
    requires WellFormed(s) && Cancel(s, now).1.Ok?
    ensures Cancel(s, now).1.value.Sum() == s.total <==> s.claimed <= VestedAt(s, now)
  {
    VestedMono(s, now, now);
  }

  /** On every linear position a claim at the end and then a cancellation naming
      the start hand out the total twice. */
  lemma SplitCanDoubleTotal(start: u64, end: u64, total: u128)
    requires NewLinear(start, end, total).Ok?
    ensures var s := NewLinear(start, end, total).value;
            var claimed := Claim(s, end).0;
            && Claim(s, end).1 == Ok(total)
            && Cancel(claimed, start).1 == Ok(CancelSplit(total, 0, total))
            && Cancel(claimed, start).1.value.Sum() == 2 * total
  {
  }

  predicate SomeFrom(times: seq<u64>, t: u64) {
    exists i :: 0 <= i < |times| && times[i] >= t
  }

  /** A cancellation at a time no earlier claim went past splits the total in
      three; every list of later claims pays at most the beneficiary's part, and
      exactly that once one of them is not before the cancellation. */
  lemma CancelThenClaim(s: Position, before: seq<u64>, now: u64, after: seq<u64>)
    requires WellFormed(s) && s.claimed == 0 && s.cancelable && s.cancelledAt == None
    requires forall i :: 0 <= i < |before| ==> before[i] <= now
    ensures var (s1, paid) := ClaimAll(s, before);
            var (s2, split) := Cancel(s1, now);
            && split.Ok?
            && split.value.alreadyClaimed == paid
            && split.value.Sum() == s.total
            && WellFormed(s2)
            && ClaimAll(s2, after).1 <= split.value.toBeneficiary
            && (SomeFrom(after, now) ==> ClaimAll(s2, after).1 == split.value.toBeneficiary)
  {
    var (s1, paid) := ClaimAll(s, before);
    ClaimsReachTheMax(s, before);
    MaxVestedIsMax(s, before);
    if before != [] {
      var i :| 0 <= i < |before| && VestedAt(s, before[i]) == MaxVested(s, before);
      VestedMono(s, before[i], now);
    }
    assert VestedAt(s1, now) == VestedAt(s, now);
    SplitSumsIff(s1, now);
    ClaimsAfterCancel(s1, now, after);
  }

  lemma ClaimsAfterCancel(s: Position, now: u64, after: seq<u64>)
    requires WellFormed(s) && Cancel(s, now).1.Ok? && s.claimed <= VestedAt(s, now)
    ensures var (s', split) := Cancel(s, now);
            && WellFormed(s')
            && ClaimAll(s', after).1 <= split.value.toBeneficiary
            && (SomeFrom(after, now) ==> ClaimAll(s', after).1 == split.value.toBeneficiary)
  {
    CallsKeepWellFormed(s, now, 0);
    var s' := Cancel(s, now).0;
    ClaimsReachTheMax(s', after);
    MaxVestedIsMax(s', after);
    forall i | 0 <= i < |after|
      ensures VestedAt(s', after[i]) <= VestedAt(s, now)
      ensures after[i] >= now ==> VestedAt(s', after[i]) == VestedAt(s, now)
    {
      FrozenAt(s, now, after[i]);
    }
  }

  /** After a cancellation vesting stops at the cancellation instant. */
  lemma FrozenAt(s: Position, now: u64, t: u64)
    requires WellFormed(s) && Cancel(s, now).1.Ok?
    ensures VestedAt(Cancel(s, now).0, t) <= VestedAt(s, now)
    ensures t >= now ==> VestedAt(Cancel(s, now).0, t) == VestedAt(s, now)
  {
    if t < now {
      VestedMono(s, t, now);
    }
  }

  /** `make_non_cancelable`. */
  function Lock(s: Position): (Position, Result<(), CurveError>) {
    if s.cancelable then (s.(cancelable := false), Ok(())) else (s, Err(ZeroAmount))
  }

  datatype Call = ClaimAt(now: u64) | CancelAt(now: u64) | SignalOf(index: u32) | LockIt

  function One(s: Position, c: Call): (s': Position)
    requires WellFormed(s)
    ensures WellFormed(s')
  {
    match c
    case ClaimAt(now) => CallsKeepWellFormed(s, now, 0); Claim(s, now).0
    case CancelAt(now) => CallsKeepWellFormed(s, now, 0); Cancel(s, now).0
    case SignalOf(index) => CallsKeepWellFormed(s, 0, index); Signal(s, index).0
    case LockIt => Lock(s).0
  }

  function After(s: Position, calls: seq<Call>): (s': Position)
    requires WellFormed(s)
    ensures WellFormed(s')
    decreases |calls|
  {
    if calls == [] then s else After(One(s, calls[0]), calls[1..])
  }

  /** The terms stay for good, claims only grow, and nothing undoes a lock or moves
      a cancellation or what was signalled before it. */
  predicate Succeeds(s: Position, s': Position) {
    && s' == s.(claimed := s'.claimed, cancelable := s'.cancelable, cancelledAt := s'.cancelledAt, signalled := s'.signalled)
    && s.claimed <= s'.claimed
    && (s.cancelledAt.Some? ==> s'.cancelledAt == s.cancelledAt && s'.signalled == s.signalled)
    && (!s.cancelable ==> !s'.cancelable && s'.cancelledAt == s.cancelledAt)
  }

  lemma OneSucceeds(s: Position, c: Call)
    requires WellFormed(s)
    ensures Succeeds(s, One(s, c))
  {
  }

  lemma SucceedsTransitively(s: Position, s1: Position, s2: Position)
    requires Succeeds(s, s1) && Succeeds(s1, s2)
    ensures Succeeds(s, s2)
  {
  }

  lemma {:induction false} AfterSucceeds(s: Position, calls: seq<Call>)
    requires WellFormed(s)
    ensures Succeeds(s, After(s, calls))
    decreases |calls|
  {
    if calls != [] {
      OneSucceeds(s, calls[0]);
      AfterSucceeds(One(s, calls[0]), calls[1..]);
      SucceedsTransitively(s, One(s, calls[0]), After(s, calls));
    }
  }

  /** A cancellation is refused exactly on a locked or already cancelled position,
      and stays refused whatever is called afterwards. */
  lemma CancelsOnce(s: Position, calls: seq<Call>, now: u64)
    requires WellFormed(s)
    ensures Cancel(s, now).1.Err? <==> !s.cancelable || s.cancelledAt.Some?
    ensures Cancel(s, now).1.Err? ==> Cancel(After(s, calls), now) == (After(s, calls), Err(ZeroAmount))
  {
    AfterSucceeds(s, calls);
  }

  /** Both accepted ways of ruling a cancellation out. */
  lemma CancelledAndLocked(s: Position, now: u64, later: u64, calls: seq<Call>)
    requires WellFormed(s)
    ensures WellFormed(Cancel(s, now).0) && WellFormed(Lock(s).0)
    ensures Cancel(s, now).1.Ok? ==>
              Cancel(s, now).0 == s.(cancelledAt := Some(now)) && Cancel(After(Cancel(s, now).0, calls), later).1 == Err(ZeroAmount)
    ensures Cancel(After(Lock(s).0, calls), later).1 == Err(ZeroAmount)
    ensures Lock(s).1.Ok? <==> s.cancelable
  {
    CallsKeepWellFormed(s, now, 0);
    CancelsOnce(Cancel(s, now).0, calls, later);
    CancelsOnce(Lock(s).0, calls, later);
  }

  // --------------------------------------------------------------- the class

  class Schedule {
    const kind: Kind
    const start: u64
    const cliff: u64
    const end: u64
    const total: u128
    const transferable: bool
    const tranches: seq<u128>
    var claimed: u128
    var cancelable: bool
    var cancelledAt: Option<u64>
    var signalled: u64

    function View(): Position
      reads this
    {
      Position(kind, start, cliff, end, total, claimed, cancelable, transferable, cancelledAt, tranches, signalled)
    }

    constructor (p: Position)
      ensures View() == p
    {
      kind, start, cliff, end, total := p.kind, p.start, p.cliff, p.end, p.total;
      claimed, cancelable, transferable := p.claimed, p.cancelable, p.transferable;
      cancelledAt, tranches, signalled := p.cancelledAt, p.tranches, p.signalled;
    }

    method ClaimNow(now: u64) returns (res: Result<u128, CurveError>)
      requires WellFormed(View())
      modifies this
      ensures (View(), res) == Claim(old(View()), now)
      ensures WellFormed(View())
    {
      VestedMono(View(), now, now);
      var amount := ClaimableAt(View(), now);
      if amount == 0 {
        return Err(ZeroAmount);
      }
      if claimed + amount >= TWO_POW_128 {
        return Err(Overflow);
      }
      claimed := claimed + amount;
      return Ok(amount);
    }

    method SignalMilestone(index: u32) returns (res: Result<u128, CurveError>)
      requires WellFormed(View())
      modifies this
      ensures (View(), res) == Signal(old(View()), index)
      ensures WellFormed(View())
    {
      CallsKeepWellFormed(View(), 0, index);
      if kind != Kind.Milestone {
        return Err(ZeroAmount);
      }
      if cancelledAt.Some? {
        return Err(ZeroAmount);
      }
      if index >= |tranches| {
        return Err(ExceedsSaleReserve);
      }
      if Bit(signalled, index) {
        return Err(SlippageExceeded);
      }
      SignalFits(View(), index);
      signalled := SetBit(signalled, index);
      return Ok(tranches[index]);
    }

    /** One-way: nothing sets the flag again. */
    method MakeNonCancelable() returns (res: Result<(), CurveError>)
      modifies this
      ensures (View(), res) == Lock(old(View()))
    {
      if !cancelable {
        return Err(ZeroAmount);
      }
      cancelable := false;
      return Ok(());
    }

    method CancelNow(now: u64) returns (res: Result<CancelSplit, CurveError>)
      requires WellFormed(View())
      modifies this
      ensures (View(), res) == Cancel(old(View()), now)
      ensures WellFormed(View())
    {
      if !cancelable {
        return Err(ZeroAmount);
      }
      if cancelledAt.Some? {
        return Err(ZeroAmount);
      }
      var vested := VestedAt(View(), now);
      VestedMono(View(), now, now);
      var toBeneficiary := if vested <= claimed then 0 else vested - claimed;
      if vested > total {
        return Err(Overflow);
      }
      var toCreator := total - vested;
      cancelledAt := Some(now);
      return Ok(CancelSplit(claimed, toBeneficiary, toCreator));
    }
  }
}
