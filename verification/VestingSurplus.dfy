/** What an escrow holds beyond what it owes: exactly what other money flowed in. */
module VestingSurplus {
  import opened Words
  import opened Wrappers
  import opened VestingProgram
  import opened VestingChain
  import opened VestingSolvency

  /** What one event credits to holding `h` without any schedule being owed it: a
      payout or a refund sent there, or a transfer by another program. */
  function Inflow(env: Env, c: Chain, e: Event, h: AccountId, a: Asset): int {
    match e
    case Tx(rows, Claim(_, _, asset, amount, _)) =>
      if Execute(env, c, rows, e.ix).Ok? && |rows| == 4 && rows[2].account == h && asset == a then amount else 0
    case Tx(rows, Cancel(_, _, asset, _, refund)) =>
      if Execute(env, c, rows, e.ix).Ok? && |rows| == 4 && rows[2].account == h && asset == a then refund else 0
    case Outside(b) => Balance(b, h, a) - Balance(c.balances, h, a)
    case _ => 0
  }

  function Inflows(env: Env, c: Chain, events: seq<Event>, h: AccountId, a: Asset): int
    decreases |events|
  {
    if events == [] then 0 else Inflow(env, c, events[0], h, a) + Inflows(env, Step(env, c, events[0]), events[1..], h, a)
  }

  ghost function Surplus(c: Chain, h: AccountId, a: Asset): int
    requires AllParams(c.shards)
  {
    Balance(c.balances, h, a) - Liabilities(c.shards, h, a)
  }

  /** A creation funds exactly what it starts to owe. */
  lemma FundedPlanSurplus(env: Env, c: Chain, rows: seq<Row>, plan: Plan, c': Chain,
                          creator: AccountId, escrow: AccountId, asset: Asset, total: nat, h: AccountId, a: Asset)
    requires Solvent(env, c) && FundedPlan(plan, creator, escrow, asset, total, c.now)
    requires IsHolding(env, h) && !IsHolding(env, creator)
    requires ApplyAll(c.shards, plan.effects) == Ok(c'.shards)
    requires RunCalls(env, rows, c.balances, plan.calls) == Ok(c'.balances)
    ensures AllParams(c'.shards) && Surplus(c', h, a) == Surplus(c, h, a)
  {
    assert plan.calls == [plan.calls[0]];
    OneCall(env, rows, c.balances, plan.calls[0]);
    CreationsOwe(c.shards, plan.effects, escrow, asset, total, c.now, h, a);
    TransferMoves(c.balances, asset, creator, escrow, plan.calls[0].amount, h, a);
  }

  lemma CreationSurplus(env: Env, c: Chain, rows: seq<Row>, ix: Instruction, h: AccountId, a: Asset)
    requires Solvent(env, c) && Allowed(env, c, Tx(rows, ix)) && IsHolding(env, h)
    requires ix.CreateSchedule? || ix.CreateScheduleBatch?
    requires Execute(env, c, rows, ix).Ok?
    ensures var c' := Execute(env, c, rows, ix).value; AllParams(c'.shards) && Surplus(c', h, a) == Surplus(c, h, a)
  {
    var plan, c' := PlanOf(env, rows, ix).value, Execute(env, c, rows, ix).value;
    if ix.CreateSchedule? {
      CreateIsFunded(env, rows, ix, c.now);
      FundedPlanSurplus(env, c, rows, plan, c', rows[2].account, rows[1].account, ix.asset, ix.terms.total, h, a);
    } else {
      BatchIsFunded(env, rows, ix, c.now);
      FundedPlanSurplus(env, c, rows, plan, c', rows[1].account, rows[0].account, ix.asset, ix.terms.total, h, a);
    }
  }

  /** A payout takes from its escrow exactly what it stops owing; wherever it lands is surplus. */
  lemma PayoutSurplus(c: Chain, c': Chain, k: AccountId, asset: Asset, from: AccountId, to: AccountId,
                      paid: int, amount: u128, h: AccountId, a: Asset)
    requires AllParams(c.shards) && Moved(c, c', k, paid, amount)
    requires c.shards[k].escrow == from && (c.shards[k].asset, c.shards[k].tokenDefinition) == asset.Code()
    requires Transfer(c.balances, asset, from, to, amount) == Ok(c'.balances) || (amount == 0 && c'.balances == c.balances)
    ensures AllParams(c'.shards)
    ensures Surplus(c', h, a) == Surplus(c, h, a) + if h == to && a == asset then amount else 0
  {
    LiabilitiesUpdate(c.shards, k, c'.shards[k], h, a);
    if Draws(c.shards[k], h, a) {
      CodeInjective(asset, a);
    }
    if amount > 0 || c'.balances != c.balances {
      TransferMoves(c.balances, asset, from, to, amount, h, a);
    }
  }

  /** An accepted claim or cancellation transfers its amount, if any, from the
      escrow its schedule is drawn on to its third row. */
  lemma PayoutTransfers(env: Env, c: Chain, rows: seq<Row>, ix: Instruction)
    requires (ix.Claim? || ix.Cancel?) && Execute(env, c, rows, ix).Ok?
    ensures |rows| == 4 && rows[0].account == ScheduleAccount(env, ix.scheduleId) && rows[0].account in c.shards
    ensures Draws(c.shards[rows[0].account], rows[1].account, ix.asset)
    ensures var amount, b' := if ix.Claim? then ix.amount else ix.refund, Execute(env, c, rows, ix).value.balances;
            Transfer(c.balances, ix.asset, rows[1].account, rows[2].account, amount) == Ok(b') || (amount == 0 && b' == c.balances)
  {
    var plan := PlanOf(env, rows, ix).value;
    var effect := plan.effects[0].1;
    assert plan.effects == [(rows[0], effect)];
    OneEffect(c.shards, rows[0], effect);
    if plan.calls != [] {
      assert plan.calls == [plan.calls[0]];
      OneCall(env, rows, c.balances, plan.calls[0]);
    }
  }

  lemma ClaimOrCancelSurplus(env: Env, c: Chain, rows: seq<Row>, ix: Instruction, h: AccountId, a: Asset)
    requires Solvent(env, c) && (ix.Claim? || ix.Cancel?) && Execute(env, c, rows, ix).Ok?
    ensures var c' := Execute(env, c, rows, ix).value;
            AllParams(c'.shards) && Surplus(c', h, a) == Surplus(c, h, a) + Inflow(env, c, Tx(rows, ix), h, a)
  {
    var c' := Execute(env, c, rows, ix).value;
    PayoutTransfers(env, c, rows, ix);
    if ix.Claim? {
      ClaimTxKeeps(env, c, rows, ix);
      PayoutSurplus(c, c', rows[0].account, ix.asset, rows[1].account, rows[2].account, ix.amount, ix.amount, h, a);
    } else {
      CancelTxKeeps(env, c, rows, ix);
      PayoutSurplus(c, c', rows[0].account, ix.asset, rows[1].account, rows[2].account, 0, ix.refund, h, a);
    }
  }

  lemma SameDebtSurplus(c: Chain, c': Chain, k: AccountId, h: AccountId, a: Asset)
    requires AllParams(c.shards) && Moved(c, c', k, 0, 0) && c'.balances == c.balances
    ensures AllParams(c'.shards) && Surplus(c', h, a) == Surplus(c, h, a)
  {
    LiabilitiesUpdate(c.shards, k, c'.shards[k], h, a);
  }

  lemma HandleSurplus(env: Env, c: Chain, rows: seq<Row>, ix: Instruction, h: AccountId, a: Asset)
    requires Solvent(env, c) && (ix.MakeNonCancelable? || ix.TransferBeneficiary? || ix.SignalMilestone?)
    requires Execute(env, c, rows, ix).Ok?
    ensures var c' := Execute(env, c, rows, ix).value; AllParams(c'.shards) && Surplus(c', h, a) == Surplus(c, h, a)
  {
    HandleTxKeeps(env, c, rows, ix);
    SameDebtSurplus(c, Execute(env, c, rows, ix).value, ScheduleAccount(env, ix.scheduleId), h, a);
  }

  lemma StepSurplus(env: Env, c: Chain, e: Event, h: AccountId, a: Asset)
    requires Solvent(env, c) && Allowed(env, c, e) && IsHolding(env, h)
    ensures var c' := Step(env, c, e);
            AllParams(c'.shards) && Surplus(c', h, a) == Surplus(c, h, a) + Inflow(env, c, e, h, a)
    ensures Inflow(env, c, e, h, a) >= 0
  {
    if e.Tx? && Execute(env, c, e.rows, e.ix).Ok? {
      match e.ix
      case CreateSchedule(_, _, _, _) => CreationSurplus(env, c, e.rows, e.ix, h, a);
      case CreateScheduleBatch(_, _, _, _) => CreationSurplus(env, c, e.rows, e.ix, h, a);
      case Claim(_, _, _, _, _) => ClaimOrCancelSurplus(env, c, e.rows, e.ix, h, a);
      case Cancel(_, _, _, _, _) => ClaimOrCancelSurplus(env, c, e.rows, e.ix, h, a);
      case _ => HandleSurplus(env, c, e.rows, e.ix, h, a);
    }
  }

  lemma {:induction false} RunSurplus(env: Env, c: Chain, events: seq<Event>, h: AccountId, a: Asset)
    requires Solvent(env, c) && ValidRun(env, c, events) && IsHolding(env, h)
    ensures var c' := Run(env, c, events);
            AllParams(c'.shards) && Surplus(c', h, a) == Surplus(c, h, a) + Inflows(env, c, events, h, a)
    ensures Inflows(env, c, events, h, a) >= 0
    decreases |events|
  {
    if events != [] {
      StepKeepsSolvent(env, c, events[0]);
      StepSurplus(env, c, events[0], h, a);
      RunSurplus(env, Step(env, c, events[0]), events[1..], h, a);
    }
  }

  /** The exact form of the escrow theorem: on every run from genesis the balance
      of an escrow is what its schedules are still owed, plus what it held at
      genesis, plus what was sent to it by anything but a creation. So it equals
      what is owed exactly when nothing else was ever sent there. */
  lemma EscrowBalanceIs(env: Env, c0: Chain, events: seq<Event>, h: AccountId, a: Asset)
    requires Genesis(c0) && ValidRun(env, c0, events) && IsHolding(env, h)
    ensures var c := Run(env, c0, events); var foreign := Balance(c0.balances, h, a) + Inflows(env, c0, events, h, a);
            && AllParams(c.shards) && foreign >= 0
            && Balance(c.balances, h, a) == Liabilities(c.shards, h, a) + foreign
            && (Balance(c.balances, h, a) == Liabilities(c.shards, h, a) <==> foreign == 0)
  {
    GenesisIsSolvent(env, c0);
    RunSurplus(env, c0, events, h, a);
  }
}
