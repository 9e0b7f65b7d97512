/** The chain around the vesting program: its shards, everybody's balances and
    the block time, moved by whole transactions that land or roll back. */
module VestingChain {
  import opened Words
  import opened Wrappers
  import opened VestingProgram
  import opened VestingState

  /** Why a transaction did not land: the program refused, or the chain did. */
  datatype Failure =
    | Refused(code: Refusal)
    | OutsideWindow
    | NotAuthorized
    | InsufficientBalance
    | BalanceOverflow

  type Shards = map<AccountId, VestingSchedule>
  type Balances = map<(AccountId, Asset), u128>

  /** `shards` is this program's shard of every account; `balances` the native and
      token shards. An account may carry both kinds. */
  datatype Chain = Chain(now: u64, shards: Shards, balances: Balances)

  function Balance(b: Balances, who: AccountId, asset: Asset): u128 {
    if (who, asset) in b then b[(who, asset)] else 0
  }

  /** Debits, then credits; a transfer to the payer itself changes nothing. */
  function Transfer(b: Balances, asset: Asset, from: AccountId, to: AccountId, amount: u128): Result<Balances, Failure> {
    if Balance(b, from, asset) < amount then Err(InsufficientBalance)
    else
      var debited := b[(from, asset) := Balance(b, from, asset) - amount];
      if Balance(debited, to, asset) + amount >= TWO_POW_128 then Err(BalanceOverflow)
      else Ok(debited[(to, asset) := Balance(debited, to, asset) + amount])
  }

  /** A debit needs the payer's signature or a seed of this program that derives the payer. */
  predicate Authorized(env: Env, rows: seq<Row>, call: Call) {
    || (exists i :: 0 <= i < |rows| && rows[i].account == call.from && rows[i].isAuthorized)
    || (exists i :: 0 <= i < |call.seeds| && env.pda(call.seeds[i]) == call.from)
  }

  function RunCalls(env: Env, rows: seq<Row>, b: Balances, calls: seq<Call>): Result<Balances, Failure>
    decreases |calls|
  {
    if calls == [] then Ok(b)
    else if !Authorized(env, rows, calls[0]) then Err(NotAuthorized)
    else
      var c := calls[0];
      match Transfer(b, c.asset, c.from, c.to, c.amount)
      case Err(e) => Err(e)
      case Ok(b1) => RunCalls(env, rows, b1, calls[1..])
  }

  function ShardOf(shards: Shards, who: AccountId): Option<VestingSchedule> {
    if who in shards then Some(shards[who]) else None
  }

  function ApplyAll(shards: Shards, effects: seq<(Row, Effect)>): Result<Shards, Failure>
    decreases |effects|
  {
    if effects == [] then Ok(shards)
    else
      var who := effects[0].0.account;
      match Apply(effects[0].1, ShardOf(shards, who))
      case Err(e) => Err(Refused(e))
      case Ok(s) => ApplyAll(shards[who := s], effects[1..])
  }

  /** A whole transaction: planned, inside its window, every effect applied and
      every chained transfer made, or refused with nothing changed. */
  function Execute(env: Env, c: Chain, rows: seq<Row>, ix: Instruction): Result<Chain, Failure> {
    match PlanOf(env, rows, ix)
    case Err(e) => Err(Refused(e))
    case Ok(plan) =>
      if !plan.window.Contains(c.now) then Err(OutsideWindow)
      else
        match ApplyAll(c.shards, plan.effects)
        case Err(e) => Err(e)
        case Ok(shards) =>
          match RunCalls(env, rows, c.balances, plan.calls)
          case Err(e) => Err(e)
          case Ok(balances) => Ok(Chain(c.now, shards, balances))
  }

  datatype Event =
    | Tick(to: u64)
    | Tx(rows: seq<Row>, ix: Instruction)
    | Outside(balances: Balances)

  /** Escrows are program-derived: nobody holds a key for one. */
  ghost predicate IsHolding(env: Env, who: AccountId) {
    exists id: Bytes32 :: who == HoldingAccount(env, id)
  }

  /** What the chain lets happen: time does not go back, an escrow never signs,
      and no other program debits one. Everything else is arbitrary. */
  ghost predicate Allowed(env: Env, c: Chain, e: Event) {
    match e
    case Tick(to) => c.now <= to
    case Tx(rows, _) => forall i :: 0 <= i < |rows| && rows[i].isAuthorized ==> !IsHolding(env, rows[i].account)
    case Outside(b) => forall h, a :: IsHolding(env, h) ==> Balance(c.balances, h, a) <= Balance(b, h, a)
  }

  function Step(env: Env, c: Chain, e: Event): Chain {
    match e
    case Tick(to) => c.(now := to)
    case Tx(rows, ix) => (match Execute(env, c, rows, ix) case Ok(c') => c' case Err(_) => c)
    case Outside(b) => c.(balances := b)
  }

  function Run(env: Env, c: Chain, events: seq<Event>): Chain
    decreases |events|
  {
    if events == [] then c else Run(env, Step(env, c, events[0]), events[1..])
  }

  ghost predicate ValidRun(env: Env, c: Chain, events: seq<Event>)
    decreases |events|
  {
    events == [] || (Allowed(env, c, events[0]) && ValidRun(env, Step(env, c, events[0]), events[1..]))
  }

  /** A chain on which no schedule was created yet, later than the first two minutes of 1970. */
  predicate Genesis(c: Chain) {
    c.shards == map[] && c.now >= CANCEL_WINDOW_MS
  }

  // -------------------------------------------------------------- liabilities

  predicate Draws(s: VestingSchedule, h: AccountId, a: Asset) {
    s.escrow == h && (s.asset, s.tokenDefinition) == a.Code()
  }

  predicate AllParams(shards: Shards) {
    forall k :: k in shards ==> Params(shards[k])
  }

  function Due(s: VestingSchedule, h: AccountId, a: Asset): int
    requires Params(s)
  {
    if Draws(s, h, a) then Owed(s) else 0
  }

  /** What holding `h` owes in asset `a`, over every schedule there is. */
  ghost function Liabilities(shards: Shards, h: AccountId, a: Asset): int
    requires AllParams(shards)
    decreases |shards|
  {
    if shards == map[] then 0
    else
      var k :| k in shards;
      Due(shards[k], h, a) + Liabilities(shards - {k}, h, a)
  }

  lemma LiabilitiesPick(shards: Shards, h: AccountId, a: Asset) returns (k: AccountId)
    requires AllParams(shards) && shards != map[]
    ensures k in shards
    ensures Liabilities(shards, h, a) == Due(shards[k], h, a) + Liabilities(shards - {k}, h, a)
  {
    k :| k in shards && Liabilities(shards, h, a) == Due(shards[k], h, a) + Liabilities(shards - {k}, h, a);
  }

  lemma Without(shards: Shards, j: AccountId, k: AccountId)
    requires j in shards && k in shards && j != k
    ensures k in shards - {j} && (shards - {j})[k] == shards[k]
    ensures |shards - {j}| < |shards|
    ensures (shards - {j}) - {k} == (shards - {k}) - {j}
  {
    assert (shards - {j}).Keys == shards.Keys - {j};
  }

  /** The sum does not depend on the order the schedules are taken in. */
  lemma {:induction false} LiabilitiesSplit(shards: Shards, k: AccountId, h: AccountId, a: Asset)
    requires AllParams(shards) && k in shards
    ensures Liabilities(shards, h, a) == Due(shards[k], h, a) + Liabilities(shards - {k}, h, a)
    decreases |shards|
  {
    var j := LiabilitiesPick(shards, h, a);
    if j != k {
      Without(shards, j, k);
      Without(shards, k, j);
      LiabilitiesSplit(shards - {j}, k, h, a);
      LiabilitiesSplit(shards - {k}, j, h, a);
    }
  }

  /** Writing one shard moves the sum by the difference it makes. */
  lemma LiabilitiesUpdate(shards: Shards, k: AccountId, s: VestingSchedule, h: AccountId, a: Asset)
    requires AllParams(shards) && Params(s)
    ensures AllParams(shards[k := s])
    ensures Liabilities(shards[k := s], h, a)
         == Liabilities(shards, h, a) + Due(s, h, a) - (if k in shards then Due(shards[k], h, a) else 0)
  {
    var after := shards[k := s];
    LiabilitiesSplit(after, k, h, a);
    assert after - {k} == shards - {k};
    if k in shards {
      LiabilitiesSplit(shards, k, h, a);
    } else {
      assert shards - {k} == shards;
    }
  }

  predicate AllGood(shards: Shards, now: u64) {
    forall k :: k in shards ==> Good(shards[k], now)
  }

  lemma {:induction false} LiabilitiesCoverEach(shards: Shards, now: u64, k: AccountId, h: AccountId, a: Asset)
    requires AllGood(shards, now)
    ensures 0 <= Liabilities(shards, h, a)
    ensures k in shards && Draws(shards[k], h, a) ==> Owed(shards[k]) <= Liabilities(shards, h, a)
    decreases |shards|
  {
    if k in shards {
      GoodBounds(shards[k], now);
      LiabilitiesSplit(shards, k, h, a);
      LiabilitiesCoverEach(shards - {k}, now, k, h, a);
    } else if shards != map[] {
      var j :| j in shards;
      GoodBounds(shards[j], now);
      LiabilitiesSplit(shards, j, h, a);
      LiabilitiesCoverEach(shards - {j}, now, k, h, a);
    }
  }

  // ---------------------------------------------------------- the invariant

  /** Every stored schedule is good and drawn on an escrow of this program, and
      every escrow covers, in every asset, everything still owed out of it. */
  ghost predicate Solvent(env: Env, c: Chain) {
    && c.now >= CANCEL_WINDOW_MS
    && AllGood(c.shards, c.now)
    && (forall k :: k in c.shards ==> IsHolding(env, c.shards[k].escrow))
    && (forall h, a :: IsHolding(env, h) ==> Liabilities(c.shards, h, a) <= Balance(c.balances, h, a))
  }

  lemma TransferMoves(b: Balances, asset: Asset, from: AccountId, to: AccountId, amount: u128, h: AccountId, a: Asset)
    requires Transfer(b, asset, from, to, amount).Ok?
    ensures Balance(Transfer(b, asset, from, to, amount).value, h, a)
         == Balance(b, h, a) + (if h == to && a == asset then amount else 0) - (if h == from && a == asset then amount else 0)
  {
  }

  /** One effect on its own. */
  lemma OneEffect(shards: Shards, row: Row, e: Effect)
    ensures ApplyAll(shards, [(row, e)])
         == match Apply(e, ShardOf(shards, row.account))
            case Err(r) => Err(Refused(r))
            case Ok(s) => Ok(shards[row.account := s])
  {
    assert [(row, e)][1..] == [];
  }

  /** One call on its own. */
  lemma OneCall(env: Env, rows: seq<Row>, b: Balances, call: Call)
    ensures RunCalls(env, rows, b, [call])
         == if !Authorized(env, rows, call) then Err(NotAuthorized)
            else Transfer(b, call.asset, call.from, call.to, call.amount)
  {
    assert [call][1..] == [];
  }
}
