/** Escrow solvency over every run of the chain, and what follows from it. */
module VestingSolvency {
  import opened Arithmetic
  import opened Words
  import opened Wrappers
  import opened VestingProgram
  import opened VestingState
  import opened VestingChain

  lemma CodeInjective(a: Asset, b: Asset)
    requires a.Code() == b.Code()
    ensures a == b
  {
  }

  // --------------------------------------------------------------- creations

  /** An effect that creates a fresh schedule of `total` on one escrow. */
  predicate Creates(e: Effect, escrow: AccountId, asset: Asset, total: nat, now: u64) {
    && e.ECreate?
    && Good(e.state, now)
    && e.state.claimed == 0 && e.state.cancelledAt == 0
    && e.state.escrow == escrow && (e.state.asset, e.state.tokenDefinition) == asset.Code()
    && e.state.total == total
  }

  lemma {:induction false} BatchCreates(env: Env, batchId: Bytes32, asset: Asset, terms: Terms,
                                        rows: seq<Row>, who: seq<AccountId>, n: nat, now: u64)
    requires |rows| == |who| + 2 && n <= |who| < TWO_POW_32
    requires BatchEffects(env, batchId, asset, terms, rows, who, n).Ok?
    ensures var effects := BatchEffects(env, batchId, asset, terms, rows, who, n).value;
            && |effects| == n
            && forall i :: 0 <= i < n ==> Creates(effects[i].1, rows[0].account, asset, terms.total, now)
  {
    if n > 0 {
      BatchCreates(env, batchId, asset, terms, rows, who, n - 1, now);
      NewStateIsGood(rows[1].account, rows[0].account, who[n - 1], asset, terms, now);
    }
  }

  predicate AllCreate(effects: seq<(Row, Effect)>, escrow: AccountId, asset: Asset, total: nat, now: u64) {
    forall i :: 0 <= i < |effects| ==> Creates(effects[i].1, escrow, asset, total, now)
  }

  /** Creations write fresh schedules at free ids and leave every other one alone. */
  predicate Extends(shards: Shards, shards': Shards, escrow: AccountId, now: u64) {
    && (forall k :: k in shards ==> k in shards' && shards'[k] == shards[k])
    && (forall k :: k in shards' && k !in shards ==> Fresh(shards'[k], escrow, now))
  }

  predicate Fresh(s: VestingSchedule, escrow: AccountId, now: u64) {
    Good(s, now) && s.escrow == escrow && s.claimed == 0 && s.cancelledAt == 0
  }

  lemma {:induction false} CreationsExtend(shards: Shards, effects: seq<(Row, Effect)>,
                                           escrow: AccountId, asset: Asset, total: nat, now: u64)
    requires AllCreate(effects, escrow, asset, total, now)
    requires ApplyAll(shards, effects).Ok?
    ensures Extends(shards, ApplyAll(shards, effects).value, escrow, now)
    decreases |effects|
  {
    if effects != [] {
      assert Creates(effects[0].1, escrow, asset, total, now);
      CreationsExtend(shards[effects[0].0.account := effects[0].1.state], effects[1..], escrow, asset, total, now);
    }
  }

  /** n creations add n times the total to what their escrow owes. */
  lemma {:induction false} CreationsOwe(shards: Shards, effects: seq<(Row, Effect)>,
                                        escrow: AccountId, asset: Asset, total: nat, now: u64, h: AccountId, a: Asset)
    requires AllParams(shards) && AllCreate(effects, escrow, asset, total, now)
    requires ApplyAll(shards, effects).Ok?
    ensures var shards' := ApplyAll(shards, effects).value;
            && AllParams(shards')
            && Liabilities(shards', h, a) == Liabilities(shards, h, a) + if h == escrow && a == asset then total * |effects| else 0
    decreases |effects|
  {
    if effects != [] {
      var k, s := effects[0].0.account, effects[0].1.state;
      assert Creates(effects[0].1, escrow, asset, total, now);
      LiabilitiesUpdate(shards, k, s, h, a);
      FreshDue(s, escrow, asset, h, a);
      CreationsOwe(shards[k := s], effects[1..], escrow, asset, total, now, h, a);
      OneMore(total, |effects|);
    }
  }

  lemma OneMore(total: nat, n: nat)
    requires n > 0
    ensures total * n == total + total * (n - 1)
  {
  }

  lemma FreshDue(s: VestingSchedule, escrow: AccountId, asset: Asset, h: AccountId, a: Asset)
    requires Params(s) && s.claimed == 0 && s.cancelledAt == 0
    requires s.escrow == escrow && (s.asset, s.tokenDefinition) == asset.Code()
    ensures Due(s, h, a) == if h == escrow && a == asset then s.total else 0
  {
    if (s.asset, s.tokenDefinition) == a.Code() {
      CodeInjective(asset, a);
    }
  }

  /** The plan of a creation: n fresh schedules on one escrow, funded by one
      transfer of n times the total from a creator who signed. */
  predicate FundedPlan(plan: Plan, creator: AccountId, escrow: AccountId, asset: Asset, total: nat, now: u64) {
    && AllCreate(plan.effects, escrow, asset, total, now)
    && |plan.calls| == 1
    && plan.calls[0].asset == asset && plan.calls[0].from == creator && plan.calls[0].to == escrow
    && plan.calls[0].amount == total * |plan.effects|
  }

  lemma CreateIsFunded(env: Env, rows: seq<Row>, ix: Instruction, now: u64)
    requires ix.CreateSchedule? && PlanOf(env, rows, ix).Ok?
    ensures |rows| == 3 && rows[2].isAuthorized && rows[1].account == HoldingAccount(env, ix.scheduleId)
    ensures FundedPlan(PlanOf(env, rows, ix).value, rows[2].account, rows[1].account, ix.asset, ix.terms.total, now)
  {
    NewStateIsGood(rows[2].account, rows[1].account, ix.beneficiary, ix.asset, ix.terms, now);
  }

  lemma BatchIsFunded(env: Env, rows: seq<Row>, ix: Instruction, now: u64)
    requires ix.CreateScheduleBatch? && PlanOf(env, rows, ix).Ok?
    ensures |rows| >= 3 && rows[1].isAuthorized && rows[0].account == HoldingAccount(env, ix.batchId)
    ensures FundedPlan(PlanOf(env, rows, ix).value, rows[1].account, rows[0].account, ix.asset, ix.terms.total, now)
  {
    BatchCreates(env, ix.batchId, ix.asset, ix.terms, rows, ix.beneficiaries, |ix.beneficiaries|, now);
  }

  /** Shards are written and funded in the same transaction, or neither is. */
  lemma FundedPlanKeeps(env: Env, c: Chain, rows: seq<Row>, plan: Plan, c': Chain,
                        creator: AccountId, escrow: AccountId, asset: Asset, total: nat)
    requires Solvent(env, c) && FundedPlan(plan, creator, escrow, asset, total, c.now)
    requires IsHolding(env, escrow) && !IsHolding(env, creator)
    requires ApplyAll(c.shards, plan.effects) == Ok(c'.shards)
    requires RunCalls(env, rows, c.balances, plan.calls) == Ok(c'.balances)
    requires c'.now == c.now
    ensures Solvent(env, c') && Extends(c.shards, c'.shards, escrow, c.now)
  {
    CreationsExtend(c.shards, plan.effects, escrow, asset, total, c.now);
    assert AllGood(c'.shards, c'.now);
    assert plan.calls == [plan.calls[0]];
    OneCall(env, rows, c.balances, plan.calls[0]);
    forall h, a | IsHolding(env, h)
      ensures Liabilities(c'.shards, h, a) <= Balance(c'.balances, h, a)
    {
      CreationsOwe(c.shards, plan.effects, escrow, asset, total, c.now, h, a);
      TransferMoves(c.balances, asset, creator, escrow, plan.calls[0].amount, h, a);
    }
  }

  lemma CreationTxKeeps(env: Env, c: Chain, rows: seq<Row>, ix: Instruction)
    requires Solvent(env, c) && Allowed(env, c, Tx(rows, ix))
    requires ix.CreateSchedule? || ix.CreateScheduleBatch?
    requires Execute(env, c, rows, ix).Ok?
    ensures Solvent(env, Execute(env, c, rows, ix).value)
    ensures exists escrow :: Extends(c.shards, Execute(env, c, rows, ix).value.shards, escrow, c.now)
  {
    var plan, c' := PlanOf(env, rows, ix).value, Execute(env, c, rows, ix).value;
    if ix.CreateSchedule? {
      CreateIsFunded(env, rows, ix, c.now);
      FundedPlanKeeps(env, c, rows, plan, c', rows[2].account, rows[1].account, ix.asset, ix.terms.total);
    } else {
      BatchIsFunded(env, rows, ix, c.now);
      FundedPlanKeeps(env, c, rows, plan, c', rows[1].account, rows[0].account, ix.asset, ix.terms.total);
    }
  }

  // ----------------------------------------------------------------- payouts

  /** Paying out of an escrow what one of its schedules stops being owed. */
  lemma PayoutKeeps(env: Env, c: Chain, c': Chain, k: AccountId, s': VestingSchedule, asset: Asset, to: AccountId, amount: u128)
    requires Solvent(env, c) && k in c.shards
    requires c'.now == c.now && c'.shards == c.shards[k := s']
    requires Good(s', c.now) && s'.escrow == c.shards[k].escrow
    requires (s'.asset, s'.tokenDefinition) == (c.shards[k].asset, c.shards[k].tokenDefinition) == asset.Code()
    requires Owed(s') == Owed(c.shards[k]) - amount
    requires Transfer(c.balances, asset, s'.escrow, to, amount) == Ok(c'.balances) || (amount == 0 && c'.balances == c.balances)
    ensures Solvent(env, c')
  {
    forall h, a | IsHolding(env, h)
      ensures Liabilities(c'.shards, h, a) <= Balance(c'.balances, h, a)
    {
      LiabilitiesUpdate(c.shards, k, s', h, a);
      if Draws(s', h, a) {
        CodeInjective(asset, a);
      }
      if amount > 0 || c'.balances != c.balances {
        TransferMoves(c.balances, asset, s'.escrow, to, amount, h, a);
      }
    }
  }

  /** One schedule moved and nothing else of this program's: `paid` more was
      claimed, and `left` less is owed. */
  predicate Moved(c: Chain, c': Chain, k: AccountId, paid: int, left: int) {
    && c'.now == c.now
    && k in c.shards && k in c'.shards
    && c'.shards == c.shards[k := c'.shards[k]]
    && Good(c.shards[k], c.now) && Good(c'.shards[k], c.now)
    && Evolves(c.shards[k], c'.shards[k])
    && c'.shards[k].claimed == c.shards[k].claimed + paid
    && Owed(c'.shards[k]) == Owed(c.shards[k]) - left
  }

  lemma ClaimTxKeeps(env: Env, c: Chain, rows: seq<Row>, ix: Instruction)
    requires Solvent(env, c) && ix.Claim?
    requires Execute(env, c, rows, ix).Ok?
    ensures Moved(c, Execute(env, c, rows, ix).value, ScheduleAccount(env, ix.scheduleId), ix.amount, ix.amount)
    ensures Solvent(env, Execute(env, c, rows, ix).value)
  {
    var plan, c' := PlanOf(env, rows, ix).value, Execute(env, c, rows, ix).value;
    var effect := plan.effects[0].1;
    assert plan.effects == [(rows[0], effect)];
    OneEffect(c.shards, rows[0], effect);
    OneCall(env, rows, c.balances, plan.calls[0]);
    var k := rows[0].account;
    ClaimKeeps(c.shards[k], effect, c.now);
    EffectEvolves(c.shards[k], effect);
    PayoutKeeps(env, c, c', k, c'.shards[k], ix.asset, rows[2].account, ix.amount);
  }

  /** A cancellation whose effect was applied and whose refund, if any, was transferred. */
  lemma CancelLanded(env: Env, c: Chain, c': Chain, row: Row, e: Effect)
    requires Solvent(env, c) && e.ECancel? && 1 <= e.at <= c.now
    requires c'.now == c.now && ApplyAll(c.shards, [(row, e)]) == Ok(c'.shards)
    requires Transfer(c.balances, e.asset, e.holding, e.refundTo, e.refund) == Ok(c'.balances)
             || (e.refund == 0 && c'.balances == c.balances)
    ensures Moved(c, c', row.account, 0, e.refund)
    ensures c'.shards[row.account].cancelledAt == e.at
    ensures Solvent(env, c')
  {
    OneEffect(c.shards, row, e);
    var k := row.account;
    CancelKeeps(c.shards[k], e, c.now);
    EffectEvolves(c.shards[k], e);
    PayoutKeeps(env, c, c', k, c'.shards[k], e.asset, e.refundTo, e.refund);
  }

  lemma CancelTxKeeps(env: Env, c: Chain, rows: seq<Row>, ix: Instruction)
    requires Solvent(env, c) && ix.Cancel?
    requires Execute(env, c, rows, ix).Ok?
    ensures Moved(c, Execute(env, c, rows, ix).value, ScheduleAccount(env, ix.scheduleId), 0, ix.refund)
    ensures Execute(env, c, rows, ix).value.shards[ScheduleAccount(env, ix.scheduleId)].cancelledAt == ix.at
    ensures c.now - CANCEL_WINDOW_MS < ix.at <= c.now
    ensures Solvent(env, Execute(env, c, rows, ix).value)
  {
    var plan, c' := PlanOf(env, rows, ix).value, Execute(env, c, rows, ix).value;
    var effect := plan.effects[0].1;
    assert plan.effects == [(rows[0], effect)];
    if ix.refund > 0 {
      OneCall(env, rows, c.balances, plan.calls[0]);
    }
    CancelLanded(env, c, c', rows[0], effect);
  }

  /** A seeded debit of what one schedule is owed at most can only fail at the recipient. */
  lemma PayoutIsCovered(env: Env, c: Chain, rows: seq<Row>, k: AccountId, call: Call)
    requires Solvent(env, c) && k in c.shards && Draws(c.shards[k], call.from, call.asset)
    requires call.amount <= Owed(c.shards[k])
    requires |call.seeds| == 1 && env.pda(call.seeds[0]) == call.from
    ensures RunCalls(env, rows, c.balances, [call]).Ok? || RunCalls(env, rows, c.balances, [call]) == Err(BalanceOverflow)
  {
    LiabilitiesCoverEach(c.shards, c.now, k, call.from, call.asset);
    OneCall(env, rows, c.balances, call);
  }

  /** Whatever `apply` accepts can be paid: on a solvent chain a claim or a
      cancellation whose plan, window and effect are accepted is authorised and
      covered, so only a recipient whose balance would overflow can stop it. */
  lemma AcceptedPayoutIsCovered(env: Env, c: Chain, rows: seq<Row>, ix: Instruction)
    requires Solvent(env, c) && (ix.Claim? || ix.Cancel?)
    requires PlanOf(env, rows, ix).Ok? && PlanOf(env, rows, ix).value.window.Contains(c.now)
    requires ApplyAll(c.shards, PlanOf(env, rows, ix).value.effects).Ok?
    ensures Execute(env, c, rows, ix).Ok? || Execute(env, c, rows, ix) == Err(BalanceOverflow)
  {
    var plan := PlanOf(env, rows, ix).value;
    var k, effect := rows[0].account, plan.effects[0].1;
    assert plan.effects == [(rows[0], effect)];
    OneEffect(c.shards, rows[0], effect);
    if ix.Claim? {
      ClaimKeeps(c.shards[k], effect, c.now);
    } else {
      CancelKeeps(c.shards[k], effect, c.now);
    }
    if plan.calls != [] {
      assert plan.calls == [plan.calls[0]];
      PayoutIsCovered(env, c, rows, k, plan.calls[0]);
    }
  }

  // ----------------------------------------------------------------- handles

  lemma HandleTxKeeps(env: Env, c: Chain, rows: seq<Row>, ix: Instruction)
    requires Solvent(env, c) && (ix.MakeNonCancelable? || ix.TransferBeneficiary? || ix.SignalMilestone?)
    requires Execute(env, c, rows, ix).Ok?
    ensures Moved(c, Execute(env, c, rows, ix).value, ScheduleAccount(env, ix.scheduleId), 0, 0)
    ensures Execute(env, c, rows, ix).value.balances == c.balances
    ensures Solvent(env, Execute(env, c, rows, ix).value)
  {
    var plan, c' := PlanOf(env, rows, ix).value, Execute(env, c, rows, ix).value;
    var effect := plan.effects[0].1;
    assert plan.effects == [(rows[0], effect)];
    OneEffect(c.shards, rows[0], effect);
    var k := rows[0].account;
    HandleKeeps(c.shards[k], effect, c.now);
    EffectEvolves(c.shards[k], effect);
    SameDebtKeeps(env, c, c', k);
  }

  lemma SameDebtKeeps(env: Env, c: Chain, c': Chain, k: AccountId)
    requires Solvent(env, c) && Moved(c, c', k, 0, 0) && c'.balances == c.balances
    ensures Solvent(env, c')
  {
    forall h, a | IsHolding(env, h)
      ensures Liabilities(c'.shards, h, a) <= Balance(c'.balances, h, a)
    {
      LiabilitiesUpdate(c.shards, k, c'.shards[k], h, a);
    }
  }

  // -------------------------------------------------------------------- runs

  lemma StepKeepsSolvent(env: Env, c: Chain, e: Event)
    requires Solvent(env, c) && Allowed(env, c, e)
    ensures Solvent(env, Step(env, c, e))
  {
    if e.Tx? && Execute(env, c, e.rows, e.ix).Ok? {
      match e.ix
      case CreateSchedule(_, _, _, _) => CreationTxKeeps(env, c, e.rows, e.ix);
      case CreateScheduleBatch(_, _, _, _) => CreationTxKeeps(env, c, e.rows, e.ix);
      case Claim(_, _, _, _, _) => ClaimTxKeeps(env, c, e.rows, e.ix);
      case Cancel(_, _, _, _, _) => CancelTxKeeps(env, c, e.rows, e.ix);
      case _ => HandleTxKeeps(env, c, e.rows, e.ix);
    }
  }

  lemma {:induction false} RunKeepsSolvent(env: Env, c: Chain, events: seq<Event>)
    requires Solvent(env, c) && ValidRun(env, c, events)
    ensures Solvent(env, Run(env, c, events))
    decreases |events|
  {
    if events != [] {
      StepKeepsSolvent(env, c, events[0]);
      RunKeepsSolvent(env, Step(env, c, events[0]), events[1..]);
    }
  }

  lemma GenesisIsSolvent(env: Env, c: Chain)
    requires Genesis(c)
    ensures Solvent(env, c)
  {
  }

  /** The escrow theorem. On every run from genesis, every escrow of this
      program covers, in every asset, the sum over all schedules drawn on it of
      what each is still owed; and every schedule keeps
      claimed <= vested(lastSeen) <= vested(now) <= total. */
  lemma EscrowsAlwaysCover(env: Env, c0: Chain, events: seq<Event>)
    requires Genesis(c0) && ValidRun(env, c0, events)
    ensures var c := Run(env, c0, events);
            && AllParams(c.shards)
            && (forall h, a :: IsHolding(env, h) ==> 0 <= Liabilities(c.shards, h, a) <= Balance(c.balances, h, a))
            && (forall k :: k in c.shards ==> var s := c.shards[k];
                  && s.claimed <= Accrued(s, s.lastSeen) <= Accrued(s, c.now) <= s.total
                  && 0 <= Owed(s)
                  && (s.kind == 2 ==> s.signalled < Pow2(s.tranches)))
  {
    GenesisIsSolvent(env, c0);
    RunKeepsSolvent(env, c0, events);
    var c := Run(env, c0, events);
    forall k | k in c.shards
      ensures var s := c.shards[k];
              && s.claimed <= Accrued(s, s.lastSeen) <= Accrued(s, c.now) <= s.total && 0 <= Owed(s)
    {
      GoodBounds(c.shards[k], c.now);
    }
    forall h, a
      ensures 0 <= Liabilities(c.shards, h, a)
    {
      LiabilitiesCoverEach(c.shards, c.now, 0, h, a);
    }
  }
}
