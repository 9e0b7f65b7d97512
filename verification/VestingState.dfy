/** One schedule of the vesting program: what it has accrued, what it is still
    owed, and what each accepted effect does to both. */
module VestingState {
  import opened Arithmetic
  import opened Bits
  import opened Words
  import opened Wrappers
  import opened VestingProgram
  import Schedules

  /** The terms `NewState` lets through, and signals only of its own tranches. */
  predicate Params(s: VestingSchedule) {
    && 0 < s.total
    && s.claimed <= s.total
    && (s.kind == 0 ==> s.start <= s.cliff < s.end)
    && (s.kind == 1 ==> s.start < s.end)
    && (s.kind == 2 ==> 0 < s.tranches <= MAX_TRANCHES && s.signalled < Pow2(s.tranches))
    && s.kind <= 2
  }

  lemma VestedSucceeds(s: VestingSchedule, t: u64)
    requires Params(s)
    ensures Vested(s, t).Ok?
    ensures s.kind == 2 ==> Vested(s, t).value == s.total * Popcount(s.signalled) / s.tranches <= s.total
    ensures s.kind != 2 ==> Rebuild(s).Ok? && Schedules.Shape(Rebuild(s).value)
  {
    if s.kind == 2 {
      PopcountBound(s.signalled, s.tranches);
      ShareOfTotal(s.total, Popcount(s.signalled), s.tranches);
    }
  }

  /** A share of k parts out of n is at most the total, all of it only when k == n. */
  lemma ShareOfTotal(total: nat, k: nat, n: nat)
    requires 0 < n && k <= n
    ensures 0 <= total * k / n <= total
    ensures total > 0 ==> (total * k / n == total <==> k == n)
  {
    MulMono(k, n, total);
    FloorAdjoint(0, total * k, n);
    FloorAdjoint(total, total * k, n);
    FloorAdjoint(total + 1, total * k, n);
    assert (total + 1) * n == total * n + n;
    if k < n {
      MulMono(k + 1, n, total);
      assert total * (k + 1) == total * k + total;
    }
  }

  function Accrued(s: VestingSchedule, t: u64): (v: u128)
    requires Params(s)
    ensures Vested(s, t) == Ok(v)
  {
    VestedSucceeds(s, t);
    Vested(s, t).value
  }

  /** Accrual in the terms of the schedule, at every time: a time schedule vests
      nothing before its cliff, the floored share of the span that has passed, and
      all from its end on, up to a cancellation; a milestone schedule vests the
      floored share of its signalled tranches. */
  lemma AccruedIs(s: VestingSchedule, t: u64)
    requires Params(s)
    ensures s.kind != 2 ==>
              var u := if s.cancelledAt != 0 && s.cancelledAt < t then s.cancelledAt else t;
              var cliff := if s.kind == 0 then s.cliff else s.start;
              Accrued(s, t) == if u < cliff then 0 else if u >= s.end then s.total else s.total * (u - s.start) / (s.end - s.start)
    ensures s.kind == 2 ==> Accrued(s, t) == s.total * Popcount(s.signalled) / s.tranches
  {
    VestedSucceeds(s, t);
    if s.kind != 2 {
      var u := if s.cancelledAt != 0 && s.cancelledAt < t then s.cancelledAt else t;
      RebuildIs(s);
      Schedules.LinearIs(s.start, s.end, u, s.total);
      DivUnique(s.total * 0, s.end - s.start, 0, 0);
    }
  }

  /** Accrual never goes back, never passes the total, stands still from a
      cancellation on, and is complete once a live time schedule has ended. */
  lemma AccruedMono(s: VestingSchedule, t: u64, t': u64)
    requires Params(s) && t <= t'
    ensures Accrued(s, t) <= Accrued(s, t') <= s.total
    ensures s.cancelledAt != 0 && s.cancelledAt <= t ==> Accrued(s, t') == Accrued(s, t)
    ensures s.kind != 2 && s.cancelledAt == 0 && s.end <= t' ==> Accrued(s, t') == s.total
  {
    VestedSucceeds(s, t);
    VestedSucceeds(s, t');
    if s.kind != 2 {
      Schedules.VestedMono(Rebuild(s).value, t, t');
    }
  }

  /** After a cancellation at `c`, accrual up to `c` is what it was before. */
  lemma AccruedBeforeFreeze(s: VestingSchedule, c: u64, t: u64)
    requires Params(s) && s.cancelledAt == 0 && t <= c
    ensures Accrued(s.(cancelledAt := c), t) == Accrued(s, t)
  {
    VestedSucceeds(s, t);
    VestedSucceeds(s.(cancelledAt := c), t);
  }

  /** What the escrow still has to pay out for this schedule. */
  function Owed(s: VestingSchedule): int
    requires Params(s)
  {
    (if s.cancelledAt != 0 then Accrued(s, s.cancelledAt) else s.total) - s.claimed
  }

  /** The invariant of one stored schedule at block time `now`. */
  predicate Good(s: VestingSchedule, now: u64) {
    && Params(s)
    && s.lastSeen <= now
    && s.claimed <= Accrued(s, s.lastSeen)
  }

  /** claimed <= vested(lastSeen) <= vested(now) <= total, and something is never owed back. */
  lemma GoodBounds(s: VestingSchedule, now: u64)
    requires Good(s, now)
    ensures s.claimed <= Accrued(s, s.lastSeen) <= Accrued(s, now) <= s.total
    ensures 0 <= Accrued(s, now) - s.claimed <= Owed(s)
  {
    AccruedMono(s, s.lastSeen, now);
    if s.cancelledAt != 0 {
      if s.cancelledAt <= now {
        AccruedMono(s, s.cancelledAt, now);
      } else {
        AccruedMono(s, now, s.cancelledAt);
      }
    }
  }

  lemma NewStateIsGood(creator: AccountId, escrow: AccountId, beneficiary: AccountId, asset: Asset, terms: Terms, now: u64)
    requires NewState(creator, escrow, beneficiary, asset, terms).Ok?
    ensures var s := NewState(creator, escrow, beneficiary, asset, terms).value;
            && Good(s, now)
            && Owed(s) == s.total == terms.total
            && s.claimed == 0 && s.cancelledAt == 0
            && s.escrow == escrow && (s.asset, s.tokenDefinition) == asset.Code()
  {
    var s := NewState(creator, escrow, beneficiary, asset, terms).value;
    assert Pow2(0) == 1;
    if s.kind == 2 {
      Pow2Mono(0, s.tranches);
    }
    assert Params(s);
    AccruedMono(s, 0, 0);
  }

  // ------------------------------------------------------- accepted effects

  /** An accepted claim pays out of what is owed, whatever order its time comes in. */
  lemma ClaimKeeps(s: VestingSchedule, e: Effect, now: u64)
    requires Good(s, now) && e.EClaim? && e.at <= now
    requires Apply(e, Some(s)).Ok?
    ensures var s' := Apply(e, Some(s)).value;
            && Good(s', now)
            && s'.claimed == s.claimed + e.amount
            && 0 <= e.amount <= Owed(s)
            && Owed(s') == Owed(s) - e.amount
  {
    var s' := Apply(e, Some(s)).value;
    GoodBounds(s, now);
    AccruedMono(s, e.at, now);
    AccruedMono(s, e.at, s'.lastSeen) by {
      assert e.at <= s'.lastSeen;
    }
    AccruedMono(s, s.lastSeen, s'.lastSeen);
    assert Params(s');
    ClaimedDoesNotMatter(s, s', s'.lastSeen);
    ClaimedDoesNotMatter(s, s', s'.cancelledAt);
  }

  /** Accrual reads the terms, the signals and the cancellation only. */
  lemma ClaimedDoesNotMatter(s: VestingSchedule, s': VestingSchedule, t: u64)
    requires Params(s) && Params(s')
    requires s' == s.(claimed := s'.claimed, lastSeen := s'.lastSeen, cancelable := s'.cancelable, beneficiary := s'.beneficiary)
    ensures Accrued(s', t) == Accrued(s, t)
  {
    VestedSucceeds(s, t);
    VestedSucceeds(s', t);
  }

  /** An accepted cancellation, at a positive time, refunds exactly what it stops owing. */
  lemma CancelKeeps(s: VestingSchedule, e: Effect, now: u64)
    requires Good(s, now) && e.ECancel? && 1 <= e.at <= now
    requires Apply(e, Some(s)).Ok?
    ensures var s' := Apply(e, Some(s)).value;
            && Good(s', now)
            && s'.claimed == s.claimed && s'.cancelledAt == e.at
            && 0 <= e.refund <= Owed(s)
            && Owed(s') == Owed(s) - e.refund
  {
    var s' := Apply(e, Some(s)).value;
    assert s.(cancelledAt := 0) == s;
    AccruedMono(s, s.lastSeen, e.at);
    assert Params(s.(cancelledAt := e.at));
    AccruedBeforeFreeze(s, e.at, e.at);
    ClaimedDoesNotMatter(s.(cancelledAt := e.at), s', e.at);
  }

  /** The exact condition under which a cancellation conserves what is owed: a
      cancellation naming time 0 is stored as 1, so it does only if nothing vests in
      that first millisecond. */
  lemma CancelConservesIff(s: VestingSchedule, e: Effect, now: u64)
    requires Good(s, now) && e.ECancel? && e.at <= now
    requires Apply(e, Some(s)).Ok?
    ensures Params(Apply(e, Some(s)).value)
    ensures Owed(Apply(e, Some(s)).value) + e.refund == Owed(s)
       <==> e.at >= 1 || Accrued(s, 1) == Accrued(s, 0)
  {
    if e.at >= 1 {
      CancelKeeps(s, e, now);
    } else {
      var s' := Apply(e, Some(s)).value;
      assert s.(cancelledAt := 0) == s;
      assert Params(s.(cancelledAt := 1));
      AccruedBeforeFreeze(s, 1, 1);
      ClaimedDoesNotMatter(s.(cancelledAt := 1), s', 1);
    }
  }

  /** At the dawn of time a cancellation can hand out more than the escrow was funded with. */
  lemma CancellationAtZeroOverpays(who: AccountId, escrow: AccountId)
    requires who != NO_ACCOUNT
    ensures var terms := Terms(1, 0, 0, 2, 10, 0, true, false, NO_ACCOUNT, NO_ACCOUNT, who);
            var s := NewState(who, escrow, who, Native, terms);
            && s.Ok?
            && var cancelled := Apply(ECancel(who, escrow, who, Native, 0, 10), Some(s.value));
            && cancelled.Ok? && Params(cancelled.value)
            && Owed(cancelled.value) + 10 == 15
  {
    var terms := Terms(1, 0, 0, 2, 10, 0, true, false, NO_ACCOUNT, NO_ACCOUNT, who);
    var s := NewState(who, escrow, who, Native, terms).value;
    NewStateIsGood(who, escrow, who, Native, terms, 0);
    assert Schedules.LinearBetween(0, 2, 0, 10) == 0;
    Schedules.InsideSpan(0, 2, 1, 10);
    assert Schedules.LinearBetween(0, 2, 1, 10) == 5;
    assert Unvested(s, 0) == Ok(10);
  }

  /** The other effects never touch what was claimed or is owed. */
  lemma HandleKeeps(s: VestingSchedule, e: Effect, now: u64)
    requires Good(s, now) && (e.EMakeNonCancelable? || e.ETransferBeneficiary? || e.ESignalMilestone?)
    requires Apply(e, Some(s)).Ok?
    ensures var s' := Apply(e, Some(s)).value;
            && Good(s', now)
            && s'.claimed == s.claimed
            && Owed(s') == Owed(s)
  {
    var s' := Apply(e, Some(s)).value;
    if e.ESignalMilestone? {
      SignalKeeps(s, e, now);
    } else {
      ClaimedDoesNotMatter(s, s', s.lastSeen);
      ClaimedDoesNotMatter(s, s', s.cancelledAt);
    }
  }

  /** An accepted signal sets one bit of the schedule's own tranches, raises the
      count by one and never lowers what has vested; all of the total has vested
      exactly when every tranche is signalled. */
  lemma SignalKeeps(s: VestingSchedule, e: Effect, now: u64)
    requires Good(s, now) && e.ESignalMilestone?
    requires Apply(e, Some(s)).Ok?
    ensures var s' := Apply(e, Some(s)).value;
            && Good(s', now)
            && s' == s.(signalled := s'.signalled)
            && s'.signalled < Pow2(s.tranches)
            && Popcount(s'.signalled) == Popcount(s.signalled) + 1 <= s.tranches
            && (forall t: u64 :: Accrued(s', t) == s.total * Popcount(s'.signalled) / s.tranches >= Accrued(s, t))
            && Owed(s') == Owed(s)
  {
    var s' := Apply(e, Some(s)).value;
    SetBelow(s.signalled, e.index, s.tranches);
    PopcountSet(s.signalled, e.index);
    PopcountBound(s'.signalled, s.tranches);
    assert Params(s');
    MulMono(Popcount(s.signalled), Popcount(s'.signalled), s.total);
    DivMono(s.total * Popcount(s.signalled), s.total * Popcount(s'.signalled), s.tranches);
    forall t: u64
      ensures Accrued(s', t) == s.total * Popcount(s'.signalled) / s.tranches >= Accrued(s, t)
    {
      VestedSucceeds(s, t);
      VestedSucceeds(s', t);
    }
  }

  lemma MilestonesAllOrLess(s: VestingSchedule, t: u64)
    requires Params(s) && s.kind == 2
    ensures Accrued(s, t) == s.total * Popcount(s.signalled) / s.tranches
    ensures Accrued(s, t) == s.total <==> forall i :: 0 <= i < s.tranches ==> Bit(s.signalled, i)
  {
    VestedSucceeds(s, t);
    PopcountBound(s.signalled, s.tranches);
    AllOnes(s.signalled, s.tranches);
    ShareOfTotal(s.total, Popcount(s.signalled), s.tranches);
  }

  // ---------------------------------------------------------------- history

  /** What no sequence of effects changes: the terms for good, and from a
      cancellation on everything accrual depends on. */
  predicate Evolves(s: VestingSchedule, s': VestingSchedule) {
    && s' == s.(claimed := s'.claimed, lastSeen := s'.lastSeen, beneficiary := s'.beneficiary,
                cancelable := s'.cancelable, cancelledAt := s'.cancelledAt, signalled := s'.signalled)
    && s.claimed <= s'.claimed
    && s.lastSeen <= s'.lastSeen
    && (s.cancelable == 0 ==> s'.cancelable == 0 && s'.cancelledAt == s.cancelledAt)
    && (s.transferable == 0 ==> s'.beneficiary == s.beneficiary)
    && (s.cancelledAt != 0 ==> s'.cancelledAt == s.cancelledAt && s'.signalled == s.signalled)
  }

  lemma EffectEvolves(s: VestingSchedule, e: Effect)
    requires Apply(e, Some(s)).Ok?
    ensures Evolves(s, Apply(e, Some(s)).value)
  {
  }

  /** Once cancelled, nothing a schedule can become accrues differently at any time. */
  lemma FrozenForGood(s: VestingSchedule, s': VestingSchedule, t: u64)
    requires Params(s) && Params(s') && Evolves(s, s') && s.cancelledAt != 0
    ensures Accrued(s', t) == Accrued(s, t)
  {
    ClaimedDoesNotMatter(s, s', t);
  }
}
