/** Which instructions on a stored schedule land, exactly, who must have signed them,
    and the whole state they leave behind. */
module VestingVerdicts {
  import opened Bits
  import opened Words
  import opened Wrappers
  import opened VestingProgram
  import opened VestingState
  import opened VestingChain
  import opened VestingSolvency
  import opened VestingHistory

  // -------------------------------------------------------------------- rows

  /** The schedule's row, an escrow's row, a row of the same asset, and a handle of
      this program that signed. */
  predicate PayoutRows(env: Env, rows: seq<Row>, scheduleId: Bytes32, inBatch: Option<Bytes32>, asset: Asset) {
    && |rows| == 4
    && rows[0].account == ScheduleAccount(env, scheduleId) && rows[0].program == env.me
    && rows[1].account == HoldingAccount(env, SeedId(scheduleId, inBatch)) && rows[1].program == asset.ShardProgram(env)
    && rows[2].program == asset.ShardProgram(env)
    && SignedHandle(env, rows[3])
  }

  predicate HandleRows(env: Env, rows: seq<Row>, scheduleId: Bytes32) {
    && |rows| == 2
    && rows[0].account == ScheduleAccount(env, scheduleId) && rows[0].program == env.me
    && SignedHandle(env, rows[1])
  }

  predicate SignedHandle(env: Env, row: Row) {
    row.isAuthorized && row.program == env.me
  }

  lemma ClaimPlanIs(env: Env, rows: seq<Row>, ix: Instruction)
    requires ix.Claim?
    ensures PlanOf(env, rows, ix).Ok? <==> PayoutRows(env, rows, ix.scheduleId, ix.inBatch, ix.asset) && ix.amount > 0
    ensures PlanOf(env, rows, ix).Ok? ==>
              var plan := PlanOf(env, rows, ix).value;
              && plan.window == Window(ix.at, None)
              && plan.effects == [(rows[0], EClaim(rows[3].account, rows[1].account, ix.asset, ix.amount, ix.at))]
              && plan.calls == [Call(ix.asset, rows[1].account, rows[2].account, ix.amount, [HoldingSeed(env, SeedId(ix.scheduleId, ix.inBatch))])]
  {
  }

  lemma CancelPlanIs(env: Env, rows: seq<Row>, ix: Instruction)
    requires ix.Cancel?
    ensures PlanOf(env, rows, ix).Ok? <==> PayoutRows(env, rows, ix.scheduleId, ix.inBatch, ix.asset) && ix.at + CANCEL_WINDOW_MS < TWO_POW_64
    ensures PlanOf(env, rows, ix).Ok? ==>
              var plan := PlanOf(env, rows, ix).value;
              && plan.window == Window(ix.at, Some(ix.at + CANCEL_WINDOW_MS))
              && plan.effects == [(rows[0], ECancel(rows[3].account, rows[1].account, rows[2].account, ix.asset, ix.at, ix.refund))]
              && plan.calls == if ix.refund == 0 then []
                               else [Call(ix.asset, rows[1].account, rows[2].account, ix.refund, [HoldingSeed(env, SeedId(ix.scheduleId, ix.inBatch))])]
  {
  }

  predicate IsHandle(ix: Instruction) {
    ix.MakeNonCancelable? || ix.TransferBeneficiary? || ix.SignalMilestone?
  }

  function HandleEffect(ix: Instruction, signer: AccountId): Effect
    requires IsHandle(ix)
  {
    match ix
    case MakeNonCancelable(_) => EMakeNonCancelable(signer)
    case TransferBeneficiary(_, newBeneficiary) => ETransferBeneficiary(signer, newBeneficiary)
    case SignalMilestone(_, index) => ESignalMilestone(signer, index)
  }

  lemma HandlePlanIs(env: Env, rows: seq<Row>, ix: Instruction)
    requires IsHandle(ix)
    ensures PlanOf(env, rows, ix).Ok? <==> HandleRows(env, rows, ix.scheduleId)
    ensures PlanOf(env, rows, ix).Ok? ==>
              var plan := PlanOf(env, rows, ix).value;
              plan.window == Window(0, None) && plan.effects == [(rows[0], HandleEffect(ix, rows[1].account))] && plan.calls == []
  {
  }

  // ------------------------------------------------------------------ claims

  /** What a claim asks of the stored schedule, at the block time. */
  predicate Claims(s: VestingSchedule, rows: seq<Row>, ix: Instruction, now: u64)
    requires ix.Claim? && |rows| == 4 && Params(s)
  {
    && s.beneficiary == rows[3].account && Draws(s, rows[1].account, ix.asset)
    && ix.at <= now && ix.amount <= Accrued(s, ix.at) - s.claimed
  }

  function Claimed(s: VestingSchedule, amount: u128, at: u64): VestingSchedule
    requires s.claimed + amount < TWO_POW_128
  {
    s.(claimed := s.claimed + amount, lastSeen := if s.lastSeen < at then at else s.lastSeen)
  }

  lemma ClaimIsAcceptedIff(s: VestingSchedule, e: Effect)
    requires Params(s) && e.EClaim? && e.amount > 0
    ensures Apply(e, Some(s)).Ok? <==>
              && s.beneficiary == e.beneficiary && Draws(s, e.holding, e.asset)
              && e.amount <= Accrued(s, e.at) - s.claimed
    ensures Apply(e, Some(s)).Ok? ==>
              && s.claimed + e.amount < TWO_POW_128
              && Apply(e, Some(s)).value == Claimed(s, e.amount, e.at)
  {
    AccruedMono(s, e.at, e.at);
  }

  /** The credit of a payout: no overflow, which paying the payer itself never is. */
  predicate Holds(c: Chain, from: AccountId, to: AccountId, asset: Asset, amount: nat) {
    to == from || Balance(c.balances, to, asset) + amount < TWO_POW_128
  }

  /** A claim lands exactly when its rows are in order and its handle signed, the
      handle is the beneficiary's, the escrow and the asset are the schedule's, it
      names no future time, asks for no more than had vested by then and was not
      claimed, and the destination can hold it. It then moves the claimed amount and
      the time last seen, and pays the destination out of the escrow. */
  lemma ClaimLandsIff(env: Env, c: Chain, rows: seq<Row>, ix: Instruction)
    requires Solvent(env, c) && ix.Claim?
    ensures var k := ScheduleAccount(env, ix.scheduleId);
            Execute(env, c, rows, ix).Ok? <==>
              && PayoutRows(env, rows, ix.scheduleId, ix.inBatch, ix.asset) && ix.amount > 0
              && k in c.shards && Claims(c.shards[k], rows, ix, c.now)
              && Holds(c, rows[1].account, rows[2].account, ix.asset, ix.amount)
    ensures Execute(env, c, rows, ix).Ok? ==>
              var k := ScheduleAccount(env, ix.scheduleId);
              && c.shards[k].claimed + ix.amount < TWO_POW_128
              && Execute(env, c, rows, ix).value.shards == c.shards[k := Claimed(c.shards[k], ix.amount, ix.at)]
              && Transfer(c.balances, ix.asset, c.shards[k].escrow, rows[2].account, ix.amount) == Ok(Execute(env, c, rows, ix).value.balances)
  {
    ClaimPlanIs(env, rows, ix);
    var k := ScheduleAccount(env, ix.scheduleId);
    if PlanOf(env, rows, ix).Ok? {
      var effect := PlanOf(env, rows, ix).value.effects[0].1;
      OneEffect(c.shards, rows[0], effect);
      if k in c.shards {
        ClaimIsAcceptedIff(c.shards[k], effect);
        if Claims(c.shards[k], rows, ix, c.now) {
          ClaimPays(env, c, rows, ix, k);
        }
      }
    }
  }

  lemma ClaimPays(env: Env, c: Chain, rows: seq<Row>, ix: Instruction, k: AccountId)
    requires Solvent(env, c) && ix.Claim? && PlanOf(env, rows, ix).Ok? && PayoutRows(env, rows, ix.scheduleId, ix.inBatch, ix.asset)
    requires k in c.shards && Claims(c.shards[k], rows, ix, c.now) && ix.amount > 0
    ensures var r := RunCalls(env, rows, c.balances, PlanOf(env, rows, ix).value.calls);
            && r == Transfer(c.balances, ix.asset, c.shards[k].escrow, rows[2].account, ix.amount)
            && (r.Ok? <==> Holds(c, rows[1].account, rows[2].account, ix.asset, ix.amount))
  {
    ClaimPlanIs(env, rows, ix);
    var call := PlanOf(env, rows, ix).value.calls[0];
    OneCall(env, rows, c.balances, call);
    SeededCallIsAuthorized(env, rows, call);
    GoodBounds(c.shards[k], c.now);
    AccruedMono(c.shards[k], ix.at, c.now);
    OwedLands(env, c, k, ix.asset, rows[2].account, ix.amount);
  }

  // ----------------------------------------------------------- cancellations

  /** What a cancellation asks of the stored schedule, at the block time. */
  predicate Refunds(s: VestingSchedule, rows: seq<Row>, ix: Instruction, now: u64)
    requires ix.Cancel? && |rows| == 4 && Params(s)
  {
    && s.cancelAuthority == rows[3].account && s.refundTo == rows[2].account && Draws(s, rows[1].account, ix.asset)
    && s.cancelable != 0 && s.cancelledAt == 0
    && s.lastSeen <= ix.at <= now < ix.at + 120_000
    && ix.refund == s.total - Accrued(s, ix.at)
  }

  lemma CancelIsAcceptedIff(s: VestingSchedule, e: Effect)
    requires Params(s) && e.ECancel?
    ensures Apply(e, Some(s)).Ok? <==>
              && s.cancelAuthority == e.authority && s.refundTo == e.refundTo && Draws(s, e.holding, e.asset)
              && s.cancelable != 0 && s.cancelledAt == 0 && s.lastSeen <= e.at
              && e.refund == s.total - Accrued(s, e.at)
    ensures Apply(e, Some(s)).Ok? ==> Apply(e, Some(s)).value == s.(cancelledAt := if e.at < 1 then 1 else e.at, lastSeen := e.at)
  {
    if s.cancelledAt == 0 {
      assert s.(cancelledAt := 0) == s;
      AccruedMono(s, e.at, e.at);
    }
  }

  /** A cancellation lands exactly when its rows are in order and its handle signed,
      the handle is the cancel authority's and the refund goes where the terms say,
      the schedule is live, the time named is in the last two minutes and not before
      the last claim, the refund is all that had not vested by then, and the account
      refunded can hold it. */
  lemma CancelLandsIff(env: Env, c: Chain, rows: seq<Row>, ix: Instruction)
    requires Solvent(env, c) && ix.Cancel?
    ensures var k := ScheduleAccount(env, ix.scheduleId);
            Execute(env, c, rows, ix).Ok? <==>
              && PayoutRows(env, rows, ix.scheduleId, ix.inBatch, ix.asset) && ix.at + 120_000 < TWO_POW_64
              && k in c.shards && Refunds(c.shards[k], rows, ix, c.now)
              && (ix.refund == 0 || Holds(c, rows[1].account, rows[2].account, ix.asset, ix.refund))
    ensures Execute(env, c, rows, ix).Ok? ==>
              var k := ScheduleAccount(env, ix.scheduleId);
              var c' := Execute(env, c, rows, ix).value;
              && c'.shards == c.shards[k := c.shards[k].(cancelledAt := ix.at, lastSeen := ix.at)]
              && if ix.refund == 0 then c'.balances == c.balances
                 else Transfer(c.balances, ix.asset, c.shards[k].escrow, c.shards[k].refundTo, ix.refund) == Ok(c'.balances)
  {
    CancelPlanIs(env, rows, ix);
    var k := ScheduleAccount(env, ix.scheduleId);
    if PlanOf(env, rows, ix).Ok? {
      var effect := PlanOf(env, rows, ix).value.effects[0].1;
      OneEffect(c.shards, rows[0], effect);
      if k in c.shards {
        CancelIsAcceptedIff(c.shards[k], effect);
        if Refunds(c.shards[k], rows, ix, c.now) {
          CancelPays(env, c, rows, ix, k);
        }
      }
    }
  }

  lemma CancelPays(env: Env, c: Chain, rows: seq<Row>, ix: Instruction, k: AccountId)
    requires Solvent(env, c) && ix.Cancel? && PlanOf(env, rows, ix).Ok? && PayoutRows(env, rows, ix.scheduleId, ix.inBatch, ix.asset)
    requires k in c.shards && Refunds(c.shards[k], rows, ix, c.now)
    ensures var r := RunCalls(env, rows, c.balances, PlanOf(env, rows, ix).value.calls);
            if ix.refund == 0 then r == Ok(c.balances)
            else
              && r == Transfer(c.balances, ix.asset, c.shards[k].escrow, rows[2].account, ix.refund)
              && (r.Ok? <==> Holds(c, rows[1].account, rows[2].account, ix.asset, ix.refund))
  {
    CancelPlanIs(env, rows, ix);
    if ix.refund > 0 {
      var s := c.shards[k];
      var call := PlanOf(env, rows, ix).value.calls[0];
      OneCall(env, rows, c.balances, call);
      SeededCallIsAuthorized(env, rows, call);
      AccruedMono(s, s.lastSeen, ix.at);
      OwedLands(env, c, k, ix.asset, rows[2].account, ix.refund);
    }
  }

  // ----------------------------------------------------------------- handles

  /** What the instructions that move no money ask of the stored schedule. */
  predicate Permits(s: VestingSchedule, signer: AccountId, ix: Instruction)
    requires IsHandle(ix)
  {
    match ix
    case MakeNonCancelable(_) => s.creator == signer && s.cancelable != 0
    case TransferBeneficiary(_, _) => s.beneficiary == signer && s.transferable != 0
    case SignalMilestone(_, index) =>
      && s.milestoneAuthority == signer && s.kind == 2 && s.cancelledAt == 0
      && index < s.tranches && !Bit(s.signalled, index)
  }

  /** What they leave of it. */
  ghost predicate Handled(s: VestingSchedule, s': VestingSchedule, ix: Instruction)
    requires IsHandle(ix)
  {
    match ix
    case MakeNonCancelable(_) => s' == s.(cancelable := 0)
    case TransferBeneficiary(_, newBeneficiary) => s' == s.(beneficiary := newBeneficiary)
    case SignalMilestone(_, index) =>
      && s' == s.(signalled := s'.signalled)
      && forall i: nat :: Bit(s'.signalled, i) <==> i == index || Bit(s.signalled, i)
  }

  lemma HandleIsAcceptedIff(s: VestingSchedule, signer: AccountId, ix: Instruction)
    requires Params(s) && IsHandle(ix)
    ensures Apply(HandleEffect(ix, signer), Some(s)).Ok? <==> Permits(s, signer, ix)
    ensures Apply(HandleEffect(ix, signer), Some(s)).Ok? ==> Handled(s, Apply(HandleEffect(ix, signer), Some(s)).value, ix)
  {
    if ix.SignalMilestone? && Permits(s, signer, ix) {
      forall i: nat
        ensures Bit(SetBit(s.signalled, ix.index), i) <==> i == ix.index || Bit(s.signalled, i)
      {
        SetBitOthers(s.signalled, ix.index, i);
      }
    }
  }

  /** A lock, a transfer of the beneficiary and a signal land exactly when the handle
      that signed is the creator's, the beneficiary's and the milestone authority's,
      and the schedule permits them; no balance moves. */
  lemma HandleLandsIff(env: Env, c: Chain, rows: seq<Row>, ix: Instruction)
    requires Solvent(env, c) && IsHandle(ix)
    ensures var k := ScheduleAccount(env, ix.scheduleId);
            Execute(env, c, rows, ix).Ok? <==> HandleRows(env, rows, ix.scheduleId) && k in c.shards && Permits(c.shards[k], rows[1].account, ix)
    ensures Execute(env, c, rows, ix).Ok? ==>
              var k := ScheduleAccount(env, ix.scheduleId);
              var c' := Execute(env, c, rows, ix).value;
              && k in c'.shards && c'.shards == c.shards[k := c'.shards[k]] && Handled(c.shards[k], c'.shards[k], ix)
              && c'.balances == c.balances
  {
    HandlePlanIs(env, rows, ix);
    var k := ScheduleAccount(env, ix.scheduleId);
    if PlanOf(env, rows, ix).Ok? {
      OneEffect(c.shards, rows[0], HandleEffect(ix, rows[1].account));
      if k in c.shards {
        HandleIsAcceptedIff(c.shards[k], rows[1].account, ix);
      }
    }
  }
}
