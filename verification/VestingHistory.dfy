/** What one schedule pays out over a whole run: conservation, the freeze a
    cancellation puts on it, and the claim that closes it. */
module VestingHistory {
  import opened Bits
  import opened Words
  import opened Wrappers
  import opened VestingProgram
  import opened VestingState
  import opened VestingChain
  import opened VestingSolvency

  /** What one event claimed from schedule account `k`; refused transactions claim nothing. */
  function PaidBy(env: Env, c: Chain, e: Event, k: AccountId): nat {
    match e
    case Tx(rows, Claim(id, b, asset, amount, at)) =>
      if Execute(env, c, rows, e.ix).Ok? && ScheduleAccount(env, id) == k then amount else 0
    case _ => 0
  }

  /** What one event refunded from schedule account `k`. */
  function RefundedBy(env: Env, c: Chain, e: Event, k: AccountId): nat {
    match e
    case Tx(rows, Cancel(id, b, asset, at, refund)) =>
      if Execute(env, c, rows, e.ix).Ok? && ScheduleAccount(env, id) == k then refund else 0
    case _ => 0
  }

  function Paid(env: Env, c: Chain, events: seq<Event>, k: AccountId): nat
    decreases |events|
  {
    if events == [] then 0 else PaidBy(env, c, events[0], k) + Paid(env, Step(env, c, events[0]), events[1..], k)
  }

  function Refunded(env: Env, c: Chain, events: seq<Event>, k: AccountId): nat
    decreases |events|
  {
    if events == [] then 0 else RefundedBy(env, c, events[0], k) + Refunded(env, Step(env, c, events[0]), events[1..], k)
  }

  /** The ledger of one existing schedule from `c` to `c'`. */
  predicate Accounts(c: Chain, c': Chain, k: AccountId, paid: int, refunded: int) {
    && k in c.shards && k in c'.shards
    && Params(c.shards[k]) && Params(c'.shards[k])
    && Evolves(c.shards[k], c'.shards[k])
    && c'.shards[k].claimed == c.shards[k].claimed + paid
    && Owed(c'.shards[k]) == Owed(c.shards[k]) - paid - refunded
  }

  lemma MovedAccounts(c: Chain, c': Chain, target: AccountId, k: AccountId, paid: int, left: int)
    requires Moved(c, c', target, paid, left) && k in c.shards && Params(c.shards[k])
    ensures if k == target then Accounts(c, c', k, paid, left - paid) else Accounts(c, c', k, 0, 0)
  {
  }

  lemma StepAccounts(env: Env, c: Chain, e: Event, k: AccountId)
    requires Solvent(env, c) && Allowed(env, c, e) && k in c.shards
    ensures Accounts(c, Step(env, c, e), k, PaidBy(env, c, e, k), RefundedBy(env, c, e, k))
  {
    assert Accounts(c, c, k, 0, 0);
    if e.Tx? && Execute(env, c, e.rows, e.ix).Ok? {
      var c' := Execute(env, c, e.rows, e.ix).value;
      if e.ix.CreateSchedule? || e.ix.CreateScheduleBatch? {
        CreationTxKeeps(env, c, e.rows, e.ix);
      } else if e.ix.Claim? {
        ClaimTxKeeps(env, c, e.rows, e.ix);
        MovedAccounts(c, c', ScheduleAccount(env, e.ix.scheduleId), k, e.ix.amount, e.ix.amount);
      } else if e.ix.Cancel? {
        CancelTxKeeps(env, c, e.rows, e.ix);
        MovedAccounts(c, c', ScheduleAccount(env, e.ix.scheduleId), k, 0, e.ix.refund);
      } else {
        HandleTxKeeps(env, c, e.rows, e.ix);
        MovedAccounts(c, c', ScheduleAccount(env, e.ix.scheduleId), k, 0, 0);
      }
    }
  }

  /** Nothing is paid for a schedule that does not exist, and one that appears is fresh. */
  lemma StepBirths(env: Env, c: Chain, e: Event, k: AccountId)
    requires Solvent(env, c) && Allowed(env, c, e) && k !in c.shards
    ensures PaidBy(env, c, e, k) == 0 && RefundedBy(env, c, e, k) == 0
    ensures var c' := Step(env, c, e); k in c'.shards ==> Fresh(c'.shards[k], c'.shards[k].escrow, c'.now)
  {
    if e.Tx? && Execute(env, c, e.rows, e.ix).Ok? {
      match e.ix
      case CreateSchedule(_, _, _, _) => CreationTxKeeps(env, c, e.rows, e.ix);
      case CreateScheduleBatch(_, _, _, _) => CreationTxKeeps(env, c, e.rows, e.ix);
      case Claim(_, _, _, _, _) => ClaimTxKeeps(env, c, e.rows, e.ix);
      case Cancel(_, _, _, _, _) => CancelTxKeeps(env, c, e.rows, e.ix);
      case _ => HandleTxKeeps(env, c, e.rows, e.ix);
    }
  }

  lemma {:induction false} RunAccounts(env: Env, c: Chain, events: seq<Event>, k: AccountId)
    requires Solvent(env, c) && ValidRun(env, c, events) && k in c.shards
    ensures Accounts(c, Run(env, c, events), k, Paid(env, c, events, k), Refunded(env, c, events, k))
    decreases |events|
  {
    if events != [] {
      StepKeepsSolvent(env, c, events[0]);
      StepAccounts(env, c, events[0], k);
      RunAccounts(env, Step(env, c, events[0]), events[1..], k);
    }
  }

  /** Conservation, per schedule and from genesis: what was claimed, what was
      refunded and what is still owed are the total, exactly, at every moment;
      and nothing was refunded unless the schedule was cancelled. */
  lemma {:induction false} ScheduleConserves(env: Env, c: Chain, events: seq<Event>, k: AccountId)
    requires Solvent(env, c) && ValidRun(env, c, events) && k !in c.shards
    ensures k !in Run(env, c, events).shards ==> Paid(env, c, events, k) == 0 && Refunded(env, c, events, k) == 0
    ensures k in Run(env, c, events).shards ==>
              var s := Run(env, c, events).shards[k];
              && Params(s)
              && Paid(env, c, events, k) == s.claimed
              && Paid(env, c, events, k) + Refunded(env, c, events, k) + Owed(s) == s.total
              && (s.cancelledAt == 0 ==> Refunded(env, c, events, k) == 0)
    decreases |events|
  {
    if events != [] {
      var c1 := Step(env, c, events[0]);
      StepKeepsSolvent(env, c, events[0]);
      StepBirths(env, c, events[0], k);
      if k in c1.shards {
        RunAccounts(env, c1, events[1..], k);
      } else {
        ScheduleConserves(env, c1, events[1..], k);
      }
    }
  }

  /** An accepted cancellation freezes accrual at a time no more than two minutes
      back, and on every continuation of the run it stays frozen there: the
      instant never moves and no time vests more than it did. */
  lemma CancellationFreezesForGood(env: Env, c: Chain, rows: seq<Row>, ix: Instruction, later: seq<Event>, t: u64)
    requires Solvent(env, c) && ix.Cancel? && Execute(env, c, rows, ix).Ok?
    requires ValidRun(env, Execute(env, c, rows, ix).value, later)
    ensures var c1 := Execute(env, c, rows, ix).value; var c2 := Run(env, c1, later); var k := ScheduleAccount(env, ix.scheduleId);
            && k in c1.shards && k in c2.shards && Params(c1.shards[k]) && Params(c2.shards[k])
            && c.now - CANCEL_WINDOW_MS < c1.shards[k].cancelledAt <= c.now
            && c2.shards[k].cancelledAt == c1.shards[k].cancelledAt
            && Accrued(c2.shards[k], t) == Accrued(c1.shards[k], t) <= Accrued(c1.shards[k], c.now)
            && ix.refund == c1.shards[k].total - Accrued(c1.shards[k], c.now)
  {
    CancelTxKeeps(env, c, rows, ix);
    var c1, k := Execute(env, c, rows, ix).value, ScheduleAccount(env, ix.scheduleId);
    RunAccounts(env, c1, later, k);
    FrozenForGood(c1.shards[k], Run(env, c1, later).shards[k], t);
    var s := c1.shards[k];
    if t <= c.now {
      AccruedMono(s, t, c.now);
    } else {
      AccruedMono(s, c.now, t);
    }
    AccruedMono(s, s.cancelledAt, c.now);
    RefundClosesTheRest(env, c, rows, ix);
  }

  /** A cancellable schedule still owed its whole rest before the refund. */
  lemma RefundClosesTheRest(env: Env, c: Chain, rows: seq<Row>, ix: Instruction)
    requires Solvent(env, c) && ix.Cancel? && Execute(env, c, rows, ix).Ok?
    ensures var k := ScheduleAccount(env, ix.scheduleId); k in c.shards && c.shards[k].cancelledAt == 0
  {
    var effect := PlanOf(env, rows, ix).value.effects[0].1;
    assert PlanOf(env, rows, ix).value.effects == [(rows[0], effect)];
    OneEffect(c.shards, rows[0], effect);
  }

  /** The rows of a claim, as clients build them. */
  function ClaimRows(env: Env, scheduleId: Bytes32, inBatch: Option<Bytes32>, asset: Asset,
                     destination: AccountId, beneficiary: AccountId): seq<Row>
  {
    [Row(ScheduleAccount(env, scheduleId), false, env.me),
     Row(HoldingAccount(env, SeedId(scheduleId, inBatch)), false, asset.ShardProgram(env)),
     Row(destination, false, asset.ShardProgram(env)),
     Row(beneficiary, true, env.me)]
  }

  /** Those rows pass every check of the plan. */
  lemma ClaimRowsPlan(env: Env, scheduleId: Bytes32, inBatch: Option<Bytes32>, asset: Asset,
                      destination: AccountId, beneficiary: AccountId, amount: u128, at: u64)
    requires amount > 0
    ensures var holding := HoldingAccount(env, SeedId(scheduleId, inBatch));
            PlanOf(env, ClaimRows(env, scheduleId, inBatch, asset, destination, beneficiary), Claim(scheduleId, inBatch, asset, amount, at)) ==
            Ok(Plan(Window(at, None),
                    [(Row(ScheduleAccount(env, scheduleId), false, env.me), EClaim(beneficiary, holding, asset, amount, at))],
                    [Call(asset, holding, destination, amount, [HoldingSeed(env, SeedId(scheduleId, inBatch))])],
                    Claimed(scheduleId, amount, at, destination)))
  {
  }

  /** A claim with those rows, inside its window and accepted by `apply`, lands
      exactly when its transfer does. */
  lemma PlannedClaimLands(env: Env, c: Chain, scheduleId: Bytes32, inBatch: Option<Bytes32>, asset: Asset,
                          destination: AccountId, beneficiary: AccountId, amount: u128, at: u64, s': VestingSchedule)
    requires amount > 0 && at <= c.now
    requires var holding := HoldingAccount(env, SeedId(scheduleId, inBatch));
             Apply(EClaim(beneficiary, holding, asset, amount, at), ShardOf(c.shards, ScheduleAccount(env, scheduleId))) == Ok(s')
    ensures var rows := ClaimRows(env, scheduleId, inBatch, asset, destination, beneficiary);
            Execute(env, c, rows, Claim(scheduleId, inBatch, asset, amount, at)) ==
            match Transfer(c.balances, asset, HoldingAccount(env, SeedId(scheduleId, inBatch)), destination, amount)
            case Err(e) => Err(e)
            case Ok(b) => Ok(Chain(c.now, c.shards[ScheduleAccount(env, scheduleId) := s'], b))
  {
    var rows := ClaimRows(env, scheduleId, inBatch, asset, destination, beneficiary);
    var plan := PlanOf(env, rows, Claim(scheduleId, inBatch, asset, amount, at)).value;
    ClaimRowsPlan(env, scheduleId, inBatch, asset, destination, beneficiary, amount, at);
    OneEffect(c.shards, rows[0], plan.effects[0].1);
    OneCall(env, rows, c.balances, plan.calls[0]);
    SeededCallIsAuthorized(env, rows, plan.calls[0]);
  }

  lemma SeededCallIsAuthorized(env: Env, rows: seq<Row>, call: Call)
    requires |call.seeds| == 1 && env.pda(call.seeds[0]) == call.from
    ensures Authorized(env, rows, call)
  {
  }

  /** Nothing more will vest: a time schedule has ended, every tranche is signalled,
      or the time is not before a cancellation. */
  predicate Matured(s: VestingSchedule, at: u64) {
    if s.cancelledAt != 0 then s.kind == 2 || s.cancelledAt <= at
    else if s.kind == 2 then forall i :: 0 <= i < s.tranches ==> Bit(s.signalled, i)
    else s.end <= at
  }

  /** By then all that was not claimed is owed and has vested. */
  lemma MaturedIsVested(s: VestingSchedule, at: u64)
    requires Params(s) && Matured(s, at)
    ensures Accrued(s, at) == s.claimed + Owed(s)
  {
    if s.cancelledAt == 0 && s.kind == 2 {
      MilestonesAllOrLess(s, at);
    } else if s.kind == 2 {
      VestedSucceeds(s, at);
      VestedSucceeds(s, s.cancelledAt);
    } else if s.cancelledAt != 0 {
      AccruedMono(s, s.cancelledAt, at);
    } else {
      AccruedMono(s, at, at);
    }
  }

  /** The whole rest of a matured schedule may be claimed. */
  lemma RestIsAccepted(s: VestingSchedule, now: u64, e: Effect)
    requires Good(s, now) && Owed(s) > 0
    requires e.EClaim? && e.at <= now && Matured(s, e.at) && e.amount == Owed(s)
    requires e.beneficiary == s.beneficiary && e.holding == s.escrow && e.asset.Code() == (s.asset, s.tokenDefinition)
    ensures Apply(e, Some(s)).Ok? && Apply(e, Some(s)).value.claimed == s.claimed + Owed(s)
    ensures Params(Apply(e, Some(s)).value) && Owed(Apply(e, Some(s)).value) == 0
  {
    MaturedIsVested(s, e.at);
    AccruedMono(s, e.at, e.at);
    ClaimKeeps(s, e, now);
  }

  /** The escrow covers what it owes, so a payout of that is refused only where it
      would overflow, which paying the escrow itself never does. */
  predicate Lands(r: Result<Chain, Failure>, c: Chain, escrow: AccountId, asset: Asset, to: AccountId, amount: u128) {
    && (r.Ok? || r == Err(BalanceOverflow))
    && (r.Ok? <==> amount == 0 || to == escrow || Balance(c.balances, to, asset) + amount < TWO_POW_128)
  }

  lemma OwedLands(env: Env, c: Chain, k: AccountId, asset: Asset, to: AccountId, amount: u128)
    requires Solvent(env, c) && k in c.shards && Draws(c.shards[k], c.shards[k].escrow, asset)
    requires amount <= Owed(c.shards[k])
    ensures var t := Transfer(c.balances, asset, c.shards[k].escrow, to, amount);
            && (t.Ok? || t == Err(BalanceOverflow))
            && (amount > 0 ==> (t.Ok? <==> to == c.shards[k].escrow || Balance(c.balances, to, asset) + amount < TWO_POW_128))
  {
    LiabilitiesCoverEach(c.shards, c.now, k, c.shards[k].escrow, asset);
  }

  /** One claim of everything still owed is accepted and leaves nothing owed; only a
      destination that cannot hold it stops it. */
  predicate RestCloses(env: Env, c: Chain, scheduleId: Bytes32, inBatch: Option<Bytes32>, asset: Asset, destination: AccountId, at: u64)
    requires ScheduleAccount(env, scheduleId) in c.shards
    requires Params(c.shards[ScheduleAccount(env, scheduleId)]) && 0 <= Owed(c.shards[ScheduleAccount(env, scheduleId)]) < TWO_POW_128
  {
    var k := ScheduleAccount(env, scheduleId);
    var s := c.shards[k];
    var r := Execute(env, c, ClaimRows(env, scheduleId, inBatch, asset, destination, s.beneficiary), Claim(scheduleId, inBatch, asset, Owed(s), at));
    && Lands(r, c, s.escrow, asset, destination, Owed(s))
    && (r.Ok? ==> k in r.value.shards && Params(r.value.shards[k])
                  && r.value.shards[k].claimed == s.claimed + Owed(s) && Owed(r.value.shards[k]) == 0)
  }

  /** Once a schedule of any kind has matured, cancelled or not, one claim of
      everything it is still owed, signed by the beneficiary, is accepted and closes it. */
  lemma FinalClaimCloses(env: Env, c: Chain, scheduleId: Bytes32, inBatch: Option<Bytes32>, asset: Asset, destination: AccountId, at: u64)
    requires Solvent(env, c) && ScheduleAccount(env, scheduleId) in c.shards
    requires var s := c.shards[ScheduleAccount(env, scheduleId)];
             && Owed(s) > 0 && Matured(s, at) && at <= c.now
             && Draws(s, HoldingAccount(env, SeedId(scheduleId, inBatch)), asset)
    ensures 0 <= Owed(c.shards[ScheduleAccount(env, scheduleId)]) < TWO_POW_128
    ensures RestCloses(env, c, scheduleId, inBatch, asset, destination, at)
  {
    var k := ScheduleAccount(env, scheduleId);
    var s := c.shards[k];
    MaturedIsVested(s, at);
    var effect := EClaim(s.beneficiary, s.escrow, asset, Owed(s), at);
    RestIsAccepted(s, c.now, effect);
    PlannedClaimLands(env, c, scheduleId, inBatch, asset, destination, s.beneficiary, effect.amount, at, Apply(effect, Some(s)).value);
    OwedLands(env, c, k, asset, destination, effect.amount);
  }

  /** Every stored schedule can be claimed from: some seed names its escrow. */
  lemma EscrowHasASeed(env: Env, c: Chain, k: AccountId) returns (seed: Bytes32)
    requires Solvent(env, c) && k in c.shards
    ensures forall scheduleId: Bytes32 :: c.shards[k].escrow == HoldingAccount(env, SeedId(scheduleId, Some(seed)))
  {
    seed :| c.shards[k].escrow == HoldingAccount(env, seed);
  }
}
