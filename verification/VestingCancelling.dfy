/** Every live cancelable schedule a run can store can be cancelled, and what that takes. */
module VestingCancelling {
  import opened Words
  import opened Wrappers
  import opened VestingProgram
  import opened VestingState
  import opened VestingChain
  import opened VestingSolvency
  import opened VestingHistory
  import opened VestingClosing

  /** The rows of a cancellation, as clients build them. */
  function CancelRows(env: Env, scheduleId: Bytes32, inBatch: Option<Bytes32>, asset: Asset,
                      refundTo: AccountId, authority: AccountId): seq<Row>
  {
    [Row(ScheduleAccount(env, scheduleId), false, env.me),
     Row(HoldingAccount(env, SeedId(scheduleId, inBatch)), false, asset.ShardProgram(env)),
     Row(refundTo, false, asset.ShardProgram(env)),
     Row(authority, true, env.me)]
  }

  /** Those rows pass every check of the plan but the one on the end of the window. */
  lemma CancelRowsPlan(env: Env, scheduleId: Bytes32, inBatch: Option<Bytes32>, asset: Asset,
                       refundTo: AccountId, authority: AccountId, at: u64, refund: u128)
    ensures var holding := HoldingAccount(env, SeedId(scheduleId, inBatch));
            PlanOf(env, CancelRows(env, scheduleId, inBatch, asset, refundTo, authority), Cancel(scheduleId, inBatch, asset, at, refund)) ==
            if at + CANCEL_WINDOW_MS >= TWO_POW_64 then Err(TimeWentBackwards)
            else Ok(Plan(Window(at, Some(at + CANCEL_WINDOW_MS)),
                         [(Row(ScheduleAccount(env, scheduleId), false, env.me), ECancel(authority, holding, refundTo, asset, at, refund))],
                         if refund > 0 then [Call(asset, holding, refundTo, refund, [HoldingSeed(env, SeedId(scheduleId, inBatch))])] else [],
                         Cancelled(scheduleId, at, refund, refundTo)))
  {
  }

  /** A cancellation with those rows, inside its window and accepted by `apply`,
      lands exactly when its refund, if there is one, does. */
  lemma PlannedCancelLands(env: Env, c: Chain, scheduleId: Bytes32, inBatch: Option<Bytes32>, asset: Asset,
                           refundTo: AccountId, authority: AccountId, at: u64, refund: u128, s': VestingSchedule)
    requires at <= c.now < at + CANCEL_WINDOW_MS < TWO_POW_64
    requires var holding := HoldingAccount(env, SeedId(scheduleId, inBatch));
             Apply(ECancel(authority, holding, refundTo, asset, at, refund), ShardOf(c.shards, ScheduleAccount(env, scheduleId))) == Ok(s')
    ensures var rows := CancelRows(env, scheduleId, inBatch, asset, refundTo, authority);
            var shards := c.shards[ScheduleAccount(env, scheduleId) := s'];
            Execute(env, c, rows, Cancel(scheduleId, inBatch, asset, at, refund)) ==
            if refund == 0 then Ok(Chain(c.now, shards, c.balances))
            else
              match Transfer(c.balances, asset, HoldingAccount(env, SeedId(scheduleId, inBatch)), refundTo, refund)
              case Err(e) => Err(e)
              case Ok(b) => Ok(Chain(c.now, shards, b))
  {
    var rows := CancelRows(env, scheduleId, inBatch, asset, refundTo, authority);
    var plan := PlanOf(env, rows, Cancel(scheduleId, inBatch, asset, at, refund)).value;
    CancelRowsPlan(env, scheduleId, inBatch, asset, refundTo, authority, at, refund);
    OneEffect(c.shards, rows[0], plan.effects[0].1);
    if refund > 0 {
      OneCall(env, rows, c.balances, plan.calls[0]);
      SeededCallIsAuthorized(env, rows, plan.calls[0]);
    }
  }

  /** What has not vested by `at`. */
  function Rest(s: VestingSchedule, at: u64): (r: u128)
    requires Params(s)
    ensures r == s.total - Accrued(s, at)
  {
    AccruedMono(s, at, at);
    s.total - Accrued(s, at)
  }

  /** A schedule a cancellation at `at` can still touch. */
  predicate Live(s: VestingSchedule, at: u64) {
    s.cancelable != 0 && s.cancelledAt == 0 && s.lastSeen <= at
  }

  lemma RefundIsAccepted(s: VestingSchedule, now: u64, e: Effect)
    requires Good(s, now) && e.ECancel? && 1 <= e.at <= now && Live(s, e.at) && e.refund == Rest(s, e.at)
    requires e.authority == s.cancelAuthority && e.refundTo == s.refundTo
    requires e.holding == s.escrow && e.asset.Code() == (s.asset, s.tokenDefinition)
    ensures Apply(e, Some(s)) == Ok(s.(cancelledAt := e.at, lastSeen := e.at))
    ensures Params(s.(cancelledAt := e.at, lastSeen := e.at))
    ensures Owed(s.(cancelledAt := e.at, lastSeen := e.at)) == Owed(s) - e.refund == Accrued(s, e.at) - s.claimed
    ensures 0 <= e.refund <= Owed(s)
  {
    assert s.(cancelledAt := 0) == s;
    CancelKeeps(s, e, now);
  }

  /** The cancellation named `at`, of all that has not vested by then and signed by the
      authority: refused only if its window ends past the last block time or the
      account to be refunded cannot hold it; accepted, it leaves what had vested
      and was not claimed. */
  predicate Cancels(env: Env, c: Chain, scheduleId: Bytes32, inBatch: Option<Bytes32>, asset: Asset, at: u64)
    requires ScheduleAccount(env, scheduleId) in c.shards && Params(c.shards[ScheduleAccount(env, scheduleId)])
  {
    var k := ScheduleAccount(env, scheduleId);
    var s := c.shards[k];
    var refund := Rest(s, at);
    var r := Execute(env, c, CancelRows(env, scheduleId, inBatch, asset, s.refundTo, s.cancelAuthority), Cancel(scheduleId, inBatch, asset, at, refund));
    if at + CANCEL_WINDOW_MS >= TWO_POW_64 then r == Err(Refused(TimeWentBackwards))
    else
      && Lands(r, c, s.escrow, asset, s.refundTo, refund)
      && (r.Ok? ==> k in r.value.shards && r.value.shards[k] == s.(cancelledAt := at, lastSeen := at)
                    && Params(r.value.shards[k]) && Owed(r.value.shards[k]) == Accrued(s, at) - s.claimed)
  }

  lemma LiveScheduleCancels(env: Env, c: Chain, scheduleId: Bytes32, inBatch: Option<Bytes32>, asset: Asset, at: u64)
    requires Solvent(env, c) && ScheduleAccount(env, scheduleId) in c.shards
    requires var s := c.shards[ScheduleAccount(env, scheduleId)];
             Live(s, at) && Draws(s, HoldingAccount(env, SeedId(scheduleId, inBatch)), asset)
    requires at <= c.now < at + CANCEL_WINDOW_MS
    ensures Cancels(env, c, scheduleId, inBatch, asset, at)
  {
    var k := ScheduleAccount(env, scheduleId);
    var s := c.shards[k];
    var effect := ECancel(s.cancelAuthority, s.escrow, s.refundTo, asset, at, Rest(s, at));
    CancelRowsPlan(env, scheduleId, inBatch, asset, s.refundTo, s.cancelAuthority, at, effect.refund);
    if at + CANCEL_WINDOW_MS < TWO_POW_64 {
      RefundIsAccepted(s, c.now, effect);
      PlannedCancelLands(env, c, scheduleId, inBatch, asset, s.refundTo, s.cancelAuthority, at, effect.refund, Apply(effect, Some(s)).value);
      OwedLands(env, c, k, asset, s.refundTo, effect.refund);
    }
  }

  /** On every run from genesis, every stored schedule that is cancelable and was not
      cancelled can be cancelled by its authority at any time of the last two minutes
      that is not before its last claim: the block time is always one. */
  lemma EveryLiveScheduleCancels(env: Env, c0: Chain, events: seq<Event>, k: AccountId, at: u64)
      returns (scheduleId: Bytes32, seed: Bytes32, asset: Asset)
    requires Genesis(c0) && ValidRun(env, c0, events) && k in Run(env, c0, events).shards
    requires var c := Run(env, c0, events); Live(c.shards[k], at) && at <= c.now < at + CANCEL_WINDOW_MS
    ensures k == ScheduleAccount(env, scheduleId) && Params(Run(env, c0, events).shards[k])
    ensures Cancels(env, Run(env, c0, events), scheduleId, Some(seed), asset, at)
  {
    GenesisIsSolvent(env, c0);
    RunKeepsSolvent(env, c0, events);
    RunStaysNameable(env, c0, events);
    scheduleId, seed, asset := Names(env, Run(env, c0, events), k);
    LiveScheduleCancels(env, Run(env, c0, events), scheduleId, Some(seed), asset, at);
  }

  /** The block time itself can be named for as long as the schedule is live. */
  lemma BlockTimeIsInTime(env: Env, c0: Chain, events: seq<Event>, k: AccountId)
    requires Genesis(c0) && ValidRun(env, c0, events) && k in Run(env, c0, events).shards
    ensures var c := Run(env, c0, events); Live(c.shards[k], c.now) <==> c.shards[k].cancelable != 0 && c.shards[k].cancelledAt == 0
  {
    GenesisIsSolvent(env, c0);
    RunKeepsSolvent(env, c0, events);
    assert Good(Run(env, c0, events).shards[k], Run(env, c0, events).now);
  }
}
