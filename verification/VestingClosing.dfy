/** Every schedule a run can store can be closed: its account, its escrow and its
    asset can all be named in a claim. */
module VestingClosing {
  import opened Words
  import opened Wrappers
  import opened VestingProgram
  import opened VestingState
  import opened VestingChain
  import opened VestingSolvency
  import opened VestingHistory

  ghost predicate IsSchedule(env: Env, who: AccountId) {
    exists id: Bytes32 :: who == ScheduleAccount(env, id)
  }

  ghost predicate NamesAsset(s: VestingSchedule) {
    exists a: Asset :: a.Code() == (s.asset, s.tokenDefinition)
  }

  /** Every stored schedule sits at a schedule account and names an asset. */
  ghost predicate Nameable(env: Env, shards: Shards) {
    forall k :: k in shards ==> IsSchedule(env, k) && NamesAsset(shards[k])
  }

  ghost predicate Addressed(env: Env, effects: seq<(Row, Effect)>) {
    forall i :: 0 <= i < |effects| ==> IsSchedule(env, effects[i].0.account)
  }

  lemma {:induction false} BatchIsAddressed(env: Env, batchId: Bytes32, asset: Asset, terms: Terms,
                                            rows: seq<Row>, who: seq<AccountId>, n: nat)
    requires |rows| == |who| + 2 && n <= |who| < TWO_POW_32
    requires BatchEffects(env, batchId, asset, terms, rows, who, n).Ok?
    ensures Addressed(env, BatchEffects(env, batchId, asset, terms, rows, who, n).value)
  {
    if n > 0 {
      BatchIsAddressed(env, batchId, asset, terms, rows, who, n - 1);
      assert rows[n - 1 + 2].account == ScheduleAccount(env, BatchScheduleId(env, batchId, n - 1));
    }
  }

  lemma {:induction false} CreationsStayNameable(env: Env, shards: Shards, effects: seq<(Row, Effect)>,
                                                 escrow: AccountId, asset: Asset, total: nat, now: u64)
    requires Nameable(env, shards) && Addressed(env, effects) && AllCreate(effects, escrow, asset, total, now)
    requires ApplyAll(shards, effects).Ok?
    ensures Nameable(env, ApplyAll(shards, effects).value)
    decreases |effects|
  {
    if effects != [] {
      var (row, e) := effects[0];
      assert IsSchedule(env, row.account);
      assert Creates(e, escrow, asset, total, now) && NamesAsset(e.state);
      CreationsStayNameable(env, shards[row.account := e.state], effects[1..], escrow, asset, total, now);
    }
  }

  lemma CreationTxStaysNameable(env: Env, c: Chain, rows: seq<Row>, ix: Instruction)
    requires Nameable(env, c.shards) && (ix.CreateSchedule? || ix.CreateScheduleBatch?)
    requires Execute(env, c, rows, ix).Ok?
    ensures Nameable(env, Execute(env, c, rows, ix).value.shards)
  {
    var plan := PlanOf(env, rows, ix).value;
    if ix.CreateSchedule? {
      CreateIsFunded(env, rows, ix, c.now);
      assert rows[0].account == ScheduleAccount(env, ix.scheduleId);
      CreationsStayNameable(env, c.shards, plan.effects, rows[1].account, ix.asset, ix.terms.total, c.now);
    } else {
      BatchIsFunded(env, rows, ix, c.now);
      BatchIsAddressed(env, ix.batchId, ix.asset, ix.terms, rows, ix.beneficiaries, |ix.beneficiaries|);
      CreationsStayNameable(env, c.shards, plan.effects, rows[0].account, ix.asset, ix.terms.total, c.now);
    }
  }

  lemma MovedStaysNameable(env: Env, c: Chain, c': Chain, k: AccountId, paid: int, left: int)
    requires Nameable(env, c.shards) && Moved(c, c', k, paid, left)
    ensures Nameable(env, c'.shards)
  {
    assert NamesAsset(c.shards[k]);
    var a: Asset :| a.Code() == (c.shards[k].asset, c.shards[k].tokenDefinition);
    assert a.Code() == (c'.shards[k].asset, c'.shards[k].tokenDefinition);
  }

  lemma StepStaysNameable(env: Env, c: Chain, e: Event)
    requires Solvent(env, c) && Nameable(env, c.shards) && Allowed(env, c, e)
    ensures Nameable(env, Step(env, c, e).shards)
  {
    if e.Tx? && Execute(env, c, e.rows, e.ix).Ok? {
      var c' := Execute(env, c, e.rows, e.ix).value;
      if e.ix.CreateSchedule? || e.ix.CreateScheduleBatch? {
        CreationTxStaysNameable(env, c, e.rows, e.ix);
      } else if e.ix.Claim? {
        ClaimTxKeeps(env, c, e.rows, e.ix);
        MovedStaysNameable(env, c, c', ScheduleAccount(env, e.ix.scheduleId), e.ix.amount, e.ix.amount);
      } else if e.ix.Cancel? {
        CancelTxKeeps(env, c, e.rows, e.ix);
        MovedStaysNameable(env, c, c', ScheduleAccount(env, e.ix.scheduleId), 0, e.ix.refund);
      } else {
        HandleTxKeeps(env, c, e.rows, e.ix);
        MovedStaysNameable(env, c, c', ScheduleAccount(env, e.ix.scheduleId), 0, 0);
      }
    }
  }

  lemma {:induction false} RunStaysNameable(env: Env, c: Chain, events: seq<Event>)
    requires Solvent(env, c) && Nameable(env, c.shards) && ValidRun(env, c, events)
    ensures Nameable(env, Run(env, c, events).shards)
    decreases |events|
  {
    if events != [] {
      StepKeepsSolvent(env, c, events[0]);
      StepStaysNameable(env, c, events[0]);
      RunStaysNameable(env, Step(env, c, events[0]), events[1..]);
    }
  }

  /** The words of a claim that reaches the schedule stored at `k`. */
  lemma Names(env: Env, c: Chain, k: AccountId) returns (scheduleId: Bytes32, seed: Bytes32, asset: Asset)
    requires Solvent(env, c) && Nameable(env, c.shards) && k in c.shards
    ensures k == ScheduleAccount(env, scheduleId)
    ensures Draws(c.shards[k], HoldingAccount(env, SeedId(scheduleId, Some(seed))), asset)
  {
    assert IsSchedule(env, k) && NamesAsset(c.shards[k]);
    scheduleId :| k == ScheduleAccount(env, scheduleId);
    asset :| asset.Code() == (c.shards[k].asset, c.shards[k].tokenDefinition);
    seed := EscrowHasASeed(env, c, k);
  }

  lemma MaturedScheduleCloses(env: Env, c: Chain, k: AccountId, destination: AccountId, at: u64)
      returns (scheduleId: Bytes32, seed: Bytes32, asset: Asset)
    requires Solvent(env, c) && Nameable(env, c.shards) && k in c.shards
    requires Owed(c.shards[k]) > 0 && Matured(c.shards[k], at) && at <= c.now
    ensures k == ScheduleAccount(env, scheduleId) && 0 <= Owed(c.shards[k]) < TWO_POW_128
    ensures RestCloses(env, c, scheduleId, Some(seed), asset, destination, at)
  {
    scheduleId, seed, asset := Names(env, c, k);
    FinalClaimCloses(env, c, scheduleId, Some(seed), asset, destination, at);
  }

  /** On every run from genesis, every stored schedule that has matured, of any kind
      and cancelled or not, and is still owed something can be closed by its
      beneficiary with one claim of the rest, at any destination that can hold it. */
  lemma EveryMaturedScheduleCloses(env: Env, c0: Chain, events: seq<Event>, k: AccountId, destination: AccountId, at: u64)
      returns (scheduleId: Bytes32, seed: Bytes32, asset: Asset)
    requires Genesis(c0) && ValidRun(env, c0, events) && k in Run(env, c0, events).shards
    requires var c := Run(env, c0, events); Params(c.shards[k]) ==> Owed(c.shards[k]) > 0 && Matured(c.shards[k], at) && at <= c.now
    ensures k == ScheduleAccount(env, scheduleId)
    ensures Params(Run(env, c0, events).shards[k]) && 0 <= Owed(Run(env, c0, events).shards[k]) < TWO_POW_128
    ensures RestCloses(env, Run(env, c0, events), scheduleId, Some(seed), asset, destination, at)
  {
    GenesisIsSolvent(env, c0);
    RunKeepsSolvent(env, c0, events);
    RunStaysNameable(env, c0, events);
    scheduleId, seed, asset := MaturedScheduleCloses(env, Run(env, c0, events), k, destination, at);
  }
}
