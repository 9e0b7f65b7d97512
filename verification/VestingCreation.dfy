/** Which creations land, exactly, and that what they store vests by the announced
    terms: for one schedule and for every row of a batch. */
module VestingCreation {
  import opened Arithmetic
  import opened Bits
  import opened Words
  import opened Wrappers
  import opened VestingProgram
  import opened VestingState
  import opened VestingChain
  import opened VestingSolvency
  import opened VestingVerdicts

  // ------------------------------------------------------------------- terms

  /** The terms a creation accepts. */
  predicate Acceptable(terms: Terms) {
    && terms.total > 0 && terms.refundTo != NO_ACCOUNT
    && match terms.kind
       case 0 => terms.tranches == 0 && terms.start <= terms.cliff < terms.end
       case 1 => terms.tranches == 0 && terms.start < terms.end
       case 2 => 0 < terms.tranches <= 64
       case _ => false
  }

  /** A stored schedule on those terms, as new. */
  predicate Stores(s: VestingSchedule, terms: Terms, creator: AccountId, escrow: AccountId, beneficiary: AccountId, asset: Asset) {
    && (s.kind, s.start, s.cliff, s.end, s.total, s.tranches) == (terms.kind, terms.start, terms.cliff, terms.end, terms.total, terms.tranches)
    && (s.cancelable == if terms.cancelable then 1 else 0)
    && (s.transferable == if terms.transferable then 1 else 0)
    && s.refundTo == terms.refundTo
    && (s.cancelAuthority == if terms.cancelAuthority == NO_ACCOUNT then creator else terms.cancelAuthority)
    && (s.milestoneAuthority == if terms.milestoneAuthority == NO_ACCOUNT then creator else terms.milestoneAuthority)
    && s.creator == creator && s.escrow == escrow && s.beneficiary == beneficiary
    && (s.asset, s.tokenDefinition) == asset.Code()
    && s.claimed == 0 && s.lastSeen == 0 && s.cancelledAt == 0 && s.signalled == 0
  }

  lemma NewStateIsAcceptedIff(creator: AccountId, escrow: AccountId, beneficiary: AccountId, asset: Asset, terms: Terms)
    ensures NewState(creator, escrow, beneficiary, asset, terms).Ok? <==> Acceptable(terms)
    ensures NewState(creator, escrow, beneficiary, asset, terms).Ok? ==>
              Stores(NewState(creator, escrow, beneficiary, asset, terms).value, terms, creator, escrow, beneficiary, asset)
    ensures NewState(creator, escrow, beneficiary, asset, terms).Err? ==>
              NewState(creator, escrow, beneficiary, asset, terms) ==
              if terms.kind == 2 && !(0 < terms.tranches <= MAX_TRANCHES) then Err(MilestoneBad)
              else if Acceptable(terms.(refundTo := 1)) then Err(WrongRefund)
              else Err(BadSchedule)
  {
    assert Pow2(0) == 1;
    assert Popcount(0) == 0;
    if terms.kind == 2 && 0 < terms.tranches {
      DivUnique(terms.total * 0, terms.tranches, 0, 0);
    }
  }

  /** What terms promise by a time: nothing before the cliff, then the floored share of
      the whole span that has passed, all of it from the end on; of tranches, what is
      signalled, at first nothing. */
  function Promised(terms: Terms, t: u64): int {
    if terms.kind == 2 then 0
    else if t < (if terms.kind == 0 then terms.cliff else terms.start) then 0
    else if t >= terms.end then terms.total
    else if terms.start < terms.end then terms.total * (t - terms.start) / (terms.end - terms.start)
    else 0
  }

  lemma StoredVestsByItsTerms(s: VestingSchedule, terms: Terms, creator: AccountId, escrow: AccountId, beneficiary: AccountId, asset: Asset, t: u64)
    requires Acceptable(terms) && Stores(s, terms, creator, escrow, beneficiary, asset)
    ensures Params(s) && Owed(s) == terms.total && Accrued(s, t) == Promised(terms, t)
  {
    assert Pow2(0) == 1 && Popcount(0) == 0;
    if s.kind == 2 {
      Pow2Mono(0, s.tranches);
      DivUnique(s.total * 0, s.tranches, 0, 0);
    }
    AccruedIs(s, t);
  }

  // --------------------------------------------------------------- one schedule

  lemma TransferLandsIff(b: Balances, asset: Asset, from: AccountId, to: AccountId, amount: u128)
    ensures Transfer(b, asset, from, to, amount).Ok? <==>
              Balance(b, from, asset) >= amount && (to == from || Balance(b, to, asset) + amount < TWO_POW_128)
  {
  }

  predicate CreationRows(env: Env, rows: seq<Row>, scheduleId: Bytes32, asset: Asset) {
    && |rows| == 3
    && rows[0].account == ScheduleAccount(env, scheduleId) && rows[0].program == env.me
    && rows[1].account == HoldingAccount(env, scheduleId) && rows[1].program == asset.ShardProgram(env)
    && rows[2].isAuthorized && rows[2].program == asset.ShardProgram(env)
  }

  /** The creator can pay and the escrow can hold it. */
  predicate Funds(c: Chain, creator: AccountId, escrow: AccountId, asset: Asset, amount: nat) {
    Balance(c.balances, creator, asset) >= amount && Holds(c, creator, escrow, asset, amount)
  }

  lemma CreatePlanIs(env: Env, rows: seq<Row>, ix: Instruction)
    requires ix.CreateSchedule?
    ensures PlanOf(env, rows, ix).Ok? <==> CreationRows(env, rows, ix.scheduleId, ix.asset) && Acceptable(ix.terms)
    ensures PlanOf(env, rows, ix).Ok? ==>
              var plan := PlanOf(env, rows, ix).value;
              && plan.window == Window(0, None)
              && plan.calls == [Call(ix.asset, rows[2].account, rows[1].account, ix.terms.total, [])]
              && |plan.effects| == 1 && plan.effects[0].0 == rows[0] && plan.effects[0].1.ECreate?
              && Stores(plan.effects[0].1.state, ix.terms, rows[2].account, rows[1].account, ix.beneficiary, ix.asset)
  {
    if |rows| == 3 {
      NewStateIsAcceptedIff(rows[2].account, rows[1].account, ix.beneficiary, ix.asset, ix.terms);
    }
  }

  /** A creation lands exactly when its rows are in order and the creator signed, the
      terms are acceptable, the schedule's account is free, and the total can be paid
      and held. It then stores a schedule on exactly those terms and pays the escrow. */
  lemma CreateLandsIff(env: Env, c: Chain, rows: seq<Row>, ix: Instruction)
    requires ix.CreateSchedule?
    ensures var k := ScheduleAccount(env, ix.scheduleId);
            Execute(env, c, rows, ix).Ok? <==>
              && CreationRows(env, rows, ix.scheduleId, ix.asset) && Acceptable(ix.terms) && k !in c.shards
              && Funds(c, rows[2].account, rows[1].account, ix.asset, ix.terms.total)
    ensures Execute(env, c, rows, ix).Ok? ==>
              var k := ScheduleAccount(env, ix.scheduleId);
              var c' := Execute(env, c, rows, ix).value;
              && k in c'.shards && c'.shards == c.shards[k := c'.shards[k]]
              && Stores(c'.shards[k], ix.terms, rows[2].account, rows[1].account, ix.beneficiary, ix.asset)
              && Transfer(c.balances, ix.asset, rows[2].account, rows[1].account, ix.terms.total) == Ok(c'.balances)
  {
    CreatePlanIs(env, rows, ix);
    if PlanOf(env, rows, ix).Ok? {
      var plan := PlanOf(env, rows, ix).value;
      assert plan.effects == [(rows[0], plan.effects[0].1)];
      OneEffect(c.shards, rows[0], plan.effects[0].1);
      OneCall(env, rows, c.balances, plan.calls[0]);
      SignedCallIsAuthorized(env, rows, plan.calls[0], 2);
      TransferLandsIff(c.balances, ix.asset, rows[2].account, rows[1].account, ix.terms.total);
    }
  }

  lemma SignedCallIsAuthorized(env: Env, rows: seq<Row>, call: Call, i: nat)
    requires i < |rows| && rows[i].isAuthorized && rows[i].account == call.from
    ensures Authorized(env, rows, call)
  {
  }

  // -------------------------------------------------------------------- batches

  predicate BatchRows(env: Env, rows: seq<Row>, batchId: Bytes32, who: seq<AccountId>, asset: Asset) {
    && |rows| == |who| + 2 && 1 <= |who| < TWO_POW_32
    && rows[0].account == HoldingAccount(env, batchId) && rows[0].program == asset.ShardProgram(env)
    && rows[1].isAuthorized && rows[1].program == asset.ShardProgram(env)
    && forall i: nat :: i < |who| ==> BatchMember(env, rows, batchId, i)
  }

  predicate BatchMember(env: Env, rows: seq<Row>, batchId: Bytes32, i: nat)
    requires i + 2 < |rows| && i < TWO_POW_32
  {
    rows[i + 2].account == ScheduleAccount(env, BatchScheduleId(env, batchId, i)) && rows[i + 2].program == env.me
  }

  /** The effect of one row of a batch. */
  predicate BatchStores(rows: seq<Row>, terms: Terms, who: seq<AccountId>, asset: Asset, effect: (Row, Effect), i: nat)
    requires |rows| == |who| + 2 && i < |who|
  {
    effect.0 == rows[i + 2] && effect.1.ECreate? && Stores(effect.1.state, terms, rows[1].account, rows[0].account, who[i], asset)
  }

  lemma BatchRowIs(env: Env, batchId: Bytes32, asset: Asset, terms: Terms, rows: seq<Row>, who: seq<AccountId>, i: nat)
    requires |rows| == |who| + 2 && i < |who| < TWO_POW_32
    ensures BatchRow(env, batchId, asset, terms, rows, who, i).Ok? <==> BatchMember(env, rows, batchId, i) && Acceptable(terms)
    ensures BatchRow(env, batchId, asset, terms, rows, who, i).Ok? ==>
              BatchStores(rows, terms, who, asset, BatchRow(env, batchId, asset, terms, rows, who, i).value, i)
  {
    NewStateIsAcceptedIff(rows[1].account, rows[0].account, who[i], asset, terms);
  }

  lemma {:induction false} BatchIsAcceptedIff(env: Env, batchId: Bytes32, asset: Asset, terms: Terms, rows: seq<Row>, who: seq<AccountId>, n: nat)
    requires |rows| == |who| + 2 && n <= |who| < TWO_POW_32
    ensures BatchEffects(env, batchId, asset, terms, rows, who, n).Ok? <==>
              (n > 0 ==> Acceptable(terms)) && forall i: nat :: i < n ==> BatchMember(env, rows, batchId, i)
  {
    if n > 0 {
      BatchIsAcceptedIff(env, batchId, asset, terms, rows, who, n - 1);
      BatchRowIs(env, batchId, asset, terms, rows, who, n - 1);
    }
  }

  lemma {:induction false} BatchStoresAll(env: Env, batchId: Bytes32, asset: Asset, terms: Terms, rows: seq<Row>, who: seq<AccountId>, n: nat)
    requires |rows| == |who| + 2 && n <= |who| < TWO_POW_32
    requires BatchEffects(env, batchId, asset, terms, rows, who, n).Ok?
    ensures var effects := BatchEffects(env, batchId, asset, terms, rows, who, n).value;
            |effects| == n && forall i: nat :: i < n ==> BatchStores(rows, terms, who, asset, effects[i], i)
  {
    if n > 0 {
      BatchStoresAll(env, batchId, asset, terms, rows, who, n - 1);
      BatchRowIs(env, batchId, asset, terms, rows, who, n - 1);
    }
  }

  predicate AllCreations(effects: seq<(Row, Effect)>) {
    forall i :: 0 <= i < |effects| ==> effects[i].1.ECreate?
  }

  /** Every account is free and named once. */
  predicate Free(shards: Shards, effects: seq<(Row, Effect)>) {
    && (forall i :: 0 <= i < |effects| ==> effects[i].0.account !in shards)
    && (forall i, j :: 0 <= i < j < |effects| ==> effects[i].0.account != effects[j].0.account)
  }

  /** The shards after creations: each at its account, and all others as they were. */
  ghost predicate Created(shards: Shards, shards': Shards, effects: seq<(Row, Effect)>)
    requires AllCreations(effects)
  {
    && (forall i :: 0 <= i < |effects| ==> effects[i].0.account in shards' && shards'[effects[i].0.account] == effects[i].1.state)
    && (forall k :: k in shards ==> k in shards' && shards'[k] == shards[k])
    && (forall k :: k in shards' ==> k in shards || exists i :: 0 <= i < |effects| && effects[i].0.account == k)
  }

  lemma {:induction false} CreationsApplyIff(shards: Shards, effects: seq<(Row, Effect)>)
    requires AllCreations(effects)
    ensures ApplyAll(shards, effects).Ok? <==> Free(shards, effects)
    ensures ApplyAll(shards, effects).Ok? ==> Created(shards, ApplyAll(shards, effects).value, effects)
    decreases |effects|
  {
    if effects != [] {
      var (row, e) := effects[0];
      var rest := effects[1..];
      assert AllCreations(rest);
      if row.account !in shards {
        var next := shards[row.account := e.state];
        CreationsApplyIff(next, rest);
        FreeNext(shards, effects, next, rest);
        if ApplyAll(shards, effects).Ok? {
          CreatedNext(shards, effects, next, rest, ApplyAll(shards, effects).value);
        }
      }
    }
  }

  lemma FreeNext(shards: Shards, effects: seq<(Row, Effect)>, next: Shards, rest: seq<(Row, Effect)>)
    requires AllCreations(effects) && effects != [] && rest == effects[1..] && effects[0].0.account !in shards
    requires next == shards[effects[0].0.account := effects[0].1.state]
    ensures Free(shards, effects) <==> Free(next, rest)
  {
    if Free(next, rest) {
      forall i | 0 <= i < |effects|
        ensures effects[i].0.account !in shards
        ensures i > 0 ==> effects[i].0.account != effects[0].0.account
      {
        assert i > 0 ==> effects[i] == rest[i - 1];
      }
      forall i, j | 0 <= i < j < |effects|
        ensures effects[i].0.account != effects[j].0.account
      {
        assert effects[j] == rest[j - 1];
        assert i > 0 ==> effects[i] == rest[i - 1];
      }
    }
  }

  lemma CreatedNext(shards: Shards, effects: seq<(Row, Effect)>, next: Shards, rest: seq<(Row, Effect)>, shards': Shards)
    requires AllCreations(effects) && effects != [] && rest == effects[1..] && effects[0].0.account !in shards
    requires next == shards[effects[0].0.account := effects[0].1.state]
    requires AllCreations(rest) && Free(next, rest) && Created(next, shards', rest)
    ensures Created(shards, shards', effects)
  {
    forall i | 0 <= i < |effects|
      ensures effects[i].0.account in shards' && shards'[effects[i].0.account] == effects[i].1.state
    {
      assert i > 0 ==> effects[i] == rest[i - 1];
      assert effects[0].0.account in next;
    }
    forall k | k in shards'
      ensures k in shards || exists i :: 0 <= i < |effects| && effects[i].0.account == k
    {
      if k !in next {
        var i :| 0 <= i < |rest| && rest[i].0.account == k;
        assert effects[i + 1].0.account == k;
      }
    }
  }

  predicate FreeBatch(env: Env, shards: Shards, batchId: Bytes32, n: nat)
    requires n <= TWO_POW_32
  {
    && (forall i: nat :: i < n ==> ScheduleAccount(env, BatchScheduleId(env, batchId, i)) !in shards)
    && (forall i: nat, j: nat :: i < j < n ==>
          ScheduleAccount(env, BatchScheduleId(env, batchId, i)) != ScheduleAccount(env, BatchScheduleId(env, batchId, j)))
  }

  lemma BatchPlanIs(env: Env, rows: seq<Row>, ix: Instruction)
    requires ix.CreateScheduleBatch?
    ensures PlanOf(env, rows, ix).Ok? <==>
              && BatchRows(env, rows, ix.batchId, ix.beneficiaries, ix.asset) && Acceptable(ix.terms)
              && ix.terms.total * |ix.beneficiaries| < TWO_POW_128
    ensures PlanOf(env, rows, ix).Ok? ==>
              var plan := PlanOf(env, rows, ix).value;
              && plan.window == Window(0, None)
              && ix.terms.total * |ix.beneficiaries| >= 0
              && plan.calls == [Call(ix.asset, rows[1].account, rows[0].account, ix.terms.total * |ix.beneficiaries|, [])]
              && |plan.effects| == |ix.beneficiaries|
              && forall i: nat :: i < |plan.effects| ==> BatchStores(rows, ix.terms, ix.beneficiaries, ix.asset, plan.effects[i], i)
  {
    var n := |ix.beneficiaries|;
    if |rows| == n + 2 && n < TWO_POW_32 {
      BatchIsAcceptedIff(env, ix.batchId, ix.asset, ix.terms, rows, ix.beneficiaries, n);
      BatchTotal(ix.terms.total, n);
    }
    if PlanOf(env, rows, ix).Ok? {
      BatchStoresAll(env, ix.batchId, ix.asset, ix.terms, rows, ix.beneficiaries, n);
    }
  }

  /** A batch lands exactly when the creator signed, every row is the account of its
      place in the batch and free, no two coincide, the one set of terms is acceptable,
      and the total for all can be paid and held. It then stores every schedule, in
      order and for its own beneficiary, and changes nothing else. */
  lemma BatchLandsIff(env: Env, c: Chain, rows: seq<Row>, ix: Instruction)
    requires ix.CreateScheduleBatch?
    ensures Execute(env, c, rows, ix).Ok? <==>
              && BatchRows(env, rows, ix.batchId, ix.beneficiaries, ix.asset) && Acceptable(ix.terms)
              && ix.terms.total * |ix.beneficiaries| < TWO_POW_128
              && FreeBatch(env, c.shards, ix.batchId, |ix.beneficiaries|)
              && Funds(c, rows[1].account, rows[0].account, ix.asset, ix.terms.total * |ix.beneficiaries|)
    ensures Execute(env, c, rows, ix).Ok? ==> BatchLanded(env, c, rows, ix, Execute(env, c, rows, ix).value)
  {
    BatchPlanIs(env, rows, ix);
    if PlanOf(env, rows, ix).Ok? {
      BatchRuns(env, c, rows, ix, PlanOf(env, rows, ix).value);
      if Execute(env, c, rows, ix).Ok? {
        BatchIsStored(env, c, rows, ix, PlanOf(env, rows, ix).value.effects, Execute(env, c, rows, ix).value);
      }
    }
  }

  /** The effects of such a plan are applied exactly on free accounts, and its transfer
      made exactly when it is funded. */
  lemma BatchRuns(env: Env, c: Chain, rows: seq<Row>, ix: Instruction, plan: Plan)
    requires ix.CreateScheduleBatch? && BatchRows(env, rows, ix.batchId, ix.beneficiaries, ix.asset)
    requires 0 <= ix.terms.total * |ix.beneficiaries| < TWO_POW_128
    requires plan.calls == [Call(ix.asset, rows[1].account, rows[0].account, ix.terms.total * |ix.beneficiaries|, [])]
    requires |plan.effects| == |ix.beneficiaries|
    requires forall i: nat :: i < |plan.effects| ==> BatchStores(rows, ix.terms, ix.beneficiaries, ix.asset, plan.effects[i], i)
    ensures AllCreations(plan.effects)
    ensures ApplyAll(c.shards, plan.effects).Ok? <==> FreeBatch(env, c.shards, ix.batchId, |ix.beneficiaries|)
    ensures ApplyAll(c.shards, plan.effects).Ok? ==> Created(c.shards, ApplyAll(c.shards, plan.effects).value, plan.effects)
    ensures var r := RunCalls(env, rows, c.balances, plan.calls);
            && r == Transfer(c.balances, ix.asset, rows[1].account, rows[0].account, ix.terms.total * |ix.beneficiaries|)
            && (r.Ok? <==> Funds(c, rows[1].account, rows[0].account, ix.asset, ix.terms.total * |ix.beneficiaries|))
  {
    CreationsApplyIff(c.shards, plan.effects);
    BatchIsFree(env, c.shards, rows, ix, plan.effects);
    OneCall(env, rows, c.balances, plan.calls[0]);
    SignedCallIsAuthorized(env, rows, plan.calls[0], 1);
    TransferLandsIff(c.balances, ix.asset, rows[1].account, rows[0].account, plan.calls[0].amount);
  }

  ghost predicate BatchLanded(env: Env, c: Chain, rows: seq<Row>, ix: Instruction, c': Chain)
    requires ix.CreateScheduleBatch?
  {
    && |rows| == |ix.beneficiaries| + 2 && |ix.beneficiaries| < TWO_POW_32
    && (forall i: nat :: i < |ix.beneficiaries| ==> MemberStored(env, rows, ix, c', i))
    && (forall k :: k in c.shards ==> k in c'.shards && c'.shards[k] == c.shards[k])
    && (forall k :: k in c'.shards ==> k in c.shards || exists i :: 2 <= i < |rows| && k == rows[i].account)
    && 0 <= ix.terms.total * |ix.beneficiaries| < TWO_POW_128
    && Transfer(c.balances, ix.asset, rows[1].account, rows[0].account, ix.terms.total * |ix.beneficiaries|) == Ok(c'.balances)
  }

  predicate MemberStored(env: Env, rows: seq<Row>, ix: Instruction, c': Chain, i: nat)
    requires ix.CreateScheduleBatch? && |rows| == |ix.beneficiaries| + 2 && i < |ix.beneficiaries| < TWO_POW_32
  {
    var k := ScheduleAccount(env, BatchScheduleId(env, ix.batchId, i));
    k in c'.shards && Stores(c'.shards[k], ix.terms, rows[1].account, rows[0].account, ix.beneficiaries[i], ix.asset)
  }

  lemma BatchIsFree(env: Env, shards: Shards, rows: seq<Row>, ix: Instruction, effects: seq<(Row, Effect)>)
    requires ix.CreateScheduleBatch? && BatchRows(env, rows, ix.batchId, ix.beneficiaries, ix.asset)
    requires |effects| == |ix.beneficiaries|
    requires forall i: nat :: i < |effects| ==> BatchStores(rows, ix.terms, ix.beneficiaries, ix.asset, effects[i], i)
    ensures Free(shards, effects) <==> FreeBatch(env, shards, ix.batchId, |ix.beneficiaries|)
  {
    forall i: nat | i < |effects|
      ensures effects[i].0.account == ScheduleAccount(env, BatchScheduleId(env, ix.batchId, i))
    {
      assert BatchStores(rows, ix.terms, ix.beneficiaries, ix.asset, effects[i], i) && BatchMember(env, rows, ix.batchId, i);
    }
  }

  lemma BatchIsStored(env: Env, c: Chain, rows: seq<Row>, ix: Instruction, effects: seq<(Row, Effect)>, c': Chain)
    requires ix.CreateScheduleBatch? && BatchRows(env, rows, ix.batchId, ix.beneficiaries, ix.asset)
    requires |effects| == |ix.beneficiaries| && AllCreations(effects) && Created(c.shards, c'.shards, effects)
    requires forall i: nat :: i < |effects| ==> BatchStores(rows, ix.terms, ix.beneficiaries, ix.asset, effects[i], i)
    requires 0 <= ix.terms.total * |ix.beneficiaries| < TWO_POW_128
    requires Transfer(c.balances, ix.asset, rows[1].account, rows[0].account, ix.terms.total * |ix.beneficiaries|) == Ok(c'.balances)
    ensures BatchLanded(env, c, rows, ix, c')
  {
    forall i: nat | i < |effects|
      ensures MemberStored(env, rows, ix, c', i)
    {
      assert BatchStores(rows, ix.terms, ix.beneficiaries, ix.asset, effects[i], i) && BatchMember(env, rows, ix.batchId, i);
    }
    forall k | k in c'.shards && k !in c.shards
      ensures exists i :: 2 <= i < |rows| && k == rows[i].account
    {
      var i :| 0 <= i < |effects| && effects[i].0.account == k;
      assert BatchStores(rows, ix.terms, ix.beneficiaries, ix.asset, effects[i], i);
      assert rows[i + 2].account == k;
    }
  }

  // ------------------------------------------------------------------- vesting

  /** What the landed creation stored vests by the announced terms, at every time. */
  lemma CreatedVestsByItsTerms(env: Env, c: Chain, rows: seq<Row>, ix: Instruction, t: u64)
    requires ix.CreateSchedule? && Execute(env, c, rows, ix).Ok?
    ensures var c' := Execute(env, c, rows, ix).value; var k := ScheduleAccount(env, ix.scheduleId);
            k in c'.shards && Params(c'.shards[k]) && Accrued(c'.shards[k], t) == Promised(ix.terms, t)
  {
    CreateLandsIff(env, c, rows, ix);
    var s := Execute(env, c, rows, ix).value.shards[ScheduleAccount(env, ix.scheduleId)];
    StoredVestsByItsTerms(s, ix.terms, rows[2].account, rows[1].account, ix.beneficiary, ix.asset, t);
  }

  /** So does every schedule of a batch. */
  lemma BatchVestsByItsTerms(env: Env, c: Chain, rows: seq<Row>, ix: Instruction, i: nat, t: u64)
    requires ix.CreateScheduleBatch? && Execute(env, c, rows, ix).Ok? && i < |ix.beneficiaries|
    ensures i < TWO_POW_32
    ensures var c' := Execute(env, c, rows, ix).value; var k := ScheduleAccount(env, BatchScheduleId(env, ix.batchId, i));
            && k in c'.shards && Params(c'.shards[k]) && Accrued(c'.shards[k], t) == Promised(ix.terms, t)
            && c'.shards[k].beneficiary == ix.beneficiaries[i]
  {
    BatchLandsIff(env, c, rows, ix);
    var c' := Execute(env, c, rows, ix).value;
    assert MemberStored(env, rows, ix, c', i);
    var s := c'.shards[ScheduleAccount(env, BatchScheduleId(env, ix.batchId, i))];
    StoredVestsByItsTerms(s, ix.terms, rows[1].account, rows[0].account, ix.beneficiaries[i], ix.asset, t);
  }
}
