/** Who may move what: over every run nothing of a schedule moves, and no money leaves
    an account, without the signature of the party it belongs to; and what a lock, a
    cancellation and a transfer of the beneficiary settle stays settled. */
module VestingRights {
  import opened Words
  import opened Wrappers
  import opened VestingProgram
  import opened VestingState
  import opened VestingChain
  import opened VestingSolvency
  import opened VestingHistory
  import opened VestingVerdicts
  import opened VestingCreation

  predicate Signed(rows: seq<Row>, who: AccountId) {
    exists i :: 0 <= i < |rows| && rows[i].isAuthorized && rows[i].account == who
  }

  predicate SignedEvent(e: Event, who: AccountId) {
    e.Tx? && Signed(e.rows, who)
  }

  /** Each field a schedule can move moves only with its own party's signature, and
      the parties but the beneficiary are fixed. */
  predicate Entitled(e: Event, s: VestingSchedule, s': VestingSchedule) {
    && (s'.claimed != s.claimed || s'.beneficiary != s.beneficiary ==> SignedEvent(e, s.beneficiary))
    && (s'.cancelledAt != s.cancelledAt ==> SignedEvent(e, s.cancelAuthority))
    && (s'.cancelable != s.cancelable ==> SignedEvent(e, s.creator))
    && (s'.signalled != s.signalled ==> SignedEvent(e, s.milestoneAuthority))
    && SameParties(s, s')
  }

  predicate SameParties(s: VestingSchedule, s': VestingSchedule) {
    s'.cancelAuthority == s.cancelAuthority && s'.creator == s.creator && s'.milestoneAuthority == s.milestoneAuthority
  }

  lemma RowSigned(rows: seq<Row>, i: nat)
    requires i < |rows| && rows[i].isAuthorized
    ensures Signed(rows, rows[i].account)
  {
  }

  /** Whoever moved a stored schedule by a landed instruction signed for it. */
  lemma LandedWasSigned(env: Env, c: Chain, rows: seq<Row>, ix: Instruction)
    requires Solvent(env, c) && Execute(env, c, rows, ix).Ok?
    requires ix.Claim? || ix.Cancel? || IsHandle(ix)
    ensures var k := ScheduleAccount(env, ix.scheduleId);
            && k in c.shards
            && (ix.Claim? || ix.TransferBeneficiary? ==> Signed(rows, c.shards[k].beneficiary))
            && (ix.Cancel? ==> Signed(rows, c.shards[k].cancelAuthority))
            && (ix.MakeNonCancelable? ==> Signed(rows, c.shards[k].creator))
            && (ix.SignalMilestone? ==> Signed(rows, c.shards[k].milestoneAuthority))
  {
    if ix.Claim? {
      ClaimLandsIff(env, c, rows, ix);
      RowSigned(rows, 3);
    } else if ix.Cancel? {
      CancelLandsIff(env, c, rows, ix);
      RowSigned(rows, 3);
    } else {
      HandleLandsIff(env, c, rows, ix);
      RowSigned(rows, 1);
    }
  }

  /** Creations leave every stored schedule as it is. */
  lemma CreationLeavesTheRest(env: Env, c: Chain, rows: seq<Row>, ix: Instruction, k: AccountId)
    requires (ix.CreateSchedule? || ix.CreateScheduleBatch?) && Execute(env, c, rows, ix).Ok? && k in c.shards
    ensures k in Execute(env, c, rows, ix).value.shards && Execute(env, c, rows, ix).value.shards[k] == c.shards[k]
  {
    if ix.CreateSchedule? {
      CreateLandsIff(env, c, rows, ix);
    } else {
      BatchLandsIff(env, c, rows, ix);
    }
  }

  lemma StepNeedsSignatures(env: Env, c: Chain, e: Event, k: AccountId)
    requires Solvent(env, c) && k in c.shards
    ensures k in Step(env, c, e).shards && Entitled(e, c.shards[k], Step(env, c, e).shards[k])
  {
    if e.Tx? && Execute(env, c, e.rows, e.ix).Ok? {
      if e.ix.CreateSchedule? || e.ix.CreateScheduleBatch? {
        CreationLeavesTheRest(env, c, e.rows, e.ix, k);
      } else {
        LandedWasSigned(env, c, e.rows, e.ix);
        if e.ix.Claim? {
          ClaimLandsIff(env, c, e.rows, e.ix);
        } else if e.ix.Cancel? {
          CancelLandsIff(env, c, e.rows, e.ix);
        } else {
          HandleLandsIff(env, c, e.rows, e.ix);
        }
      }
    }
  }

  /** An account that signs nothing on a whole run. */
  predicate NeverSigns(events: seq<Event>, who: AccountId) {
    forall i :: 0 <= i < |events| ==> !SignedEvent(events[i], who)
  }

  /** The law of a whole run: what a party alone may move stands still while it does
      not sign. */
  lemma {:induction false} RunNeedsSignatures(env: Env, c: Chain, events: seq<Event>, k: AccountId)
    requires Solvent(env, c) && ValidRun(env, c, events) && k in c.shards
    ensures k in Run(env, c, events).shards
    ensures var s, s' := c.shards[k], Run(env, c, events).shards[k];
            && SameParties(s, s')
            && (NeverSigns(events, s.beneficiary) ==> s'.claimed == s.claimed && s'.beneficiary == s.beneficiary)
            && (NeverSigns(events, s.cancelAuthority) ==> s'.cancelledAt == s.cancelledAt)
            && (NeverSigns(events, s.creator) ==> s'.cancelable == s.cancelable)
            && (NeverSigns(events, s.milestoneAuthority) ==> s'.signalled == s.signalled)
    decreases |events|
  {
    if events != [] {
      StepKeepsSolvent(env, c, events[0]);
      StepNeedsSignatures(env, c, events[0], k);
      RunNeedsSignatures(env, Step(env, c, events[0]), events[1..], k);
      var s := c.shards[k];
      NeverSignsRest(events, s.beneficiary);
      NeverSignsRest(events, s.cancelAuthority);
      NeverSignsRest(events, s.creator);
      NeverSignsRest(events, s.milestoneAuthority);
    }
  }

  lemma NeverSignsRest(events: seq<Event>, who: AccountId)
    requires events != []
    ensures NeverSigns(events, who) ==> !SignedEvent(events[0], who) && NeverSigns(events[1..], who)
  {
  }

  // -------------------------------------------------------------------- money

  /** What a landed claim or cancellation draws on. */
  predicate DrawnByItsParty(env: Env, c: Chain, rows: seq<Row>, ix: Instruction, h: AccountId) {
    && (ix.Claim? || ix.Cancel?)
    && var k := ScheduleAccount(env, ix.scheduleId);
       && k in c.shards && c.shards[k].escrow == h
       && Signed(rows, if ix.Claim? then c.shards[k].beneficiary else c.shards[k].cancelAuthority)
  }

  /** No landed transaction takes anything from an account that did not sign it, but
      for an escrow drawn on by the party of one of its schedules. */
  lemma DebitsAreSigned(env: Env, c: Chain, rows: seq<Row>, ix: Instruction, who: AccountId, a: Asset)
    requires Solvent(env, c) && Execute(env, c, rows, ix).Ok?
    requires Balance(Execute(env, c, rows, ix).value.balances, who, a) < Balance(c.balances, who, a)
    ensures Signed(rows, who) || DrawnByItsParty(env, c, rows, ix, who)
  {
    var c' := Execute(env, c, rows, ix).value;
    match ix
    case CreateSchedule(_, _, asset, terms) =>
      CreateLandsIff(env, c, rows, ix);
      TransferMoves(c.balances, asset, rows[2].account, rows[1].account, terms.total, who, a);
      RowSigned(rows, 2);
    case CreateScheduleBatch(_, beneficiaries, asset, terms) =>
      BatchLandsIff(env, c, rows, ix);
      TransferMoves(c.balances, asset, rows[1].account, rows[0].account, terms.total * |beneficiaries|, who, a);
      RowSigned(rows, 1);
    case Claim(_, _, asset, amount, _) =>
      ClaimLandsIff(env, c, rows, ix);
      var k := ScheduleAccount(env, ix.scheduleId);
      TransferMoves(c.balances, asset, c.shards[k].escrow, rows[2].account, amount, who, a);
      RowSigned(rows, 3);
    case Cancel(_, _, asset, _, refund) =>
      CancelLandsIff(env, c, rows, ix);
      var k := ScheduleAccount(env, ix.scheduleId);
      if refund > 0 {
        TransferMoves(c.balances, asset, c.shards[k].escrow, c.shards[k].refundTo, refund, who, a);
      }
      RowSigned(rows, 3);
    case _ =>
      HandleLandsIff(env, c, rows, ix);
  }

  // ------------------------------------------------------------------ for good

  lemma {:induction false} RunEvolves(env: Env, c: Chain, events: seq<Event>, k: AccountId)
    requires Solvent(env, c) && ValidRun(env, c, events) && k in c.shards
    ensures Solvent(env, Run(env, c, events))
    ensures k in Run(env, c, events).shards && Evolves(c.shards[k], Run(env, c, events).shards[k])
  {
    RunKeepsSolvent(env, c, events);
    RunAccounts(env, c, events, k);
  }

  /** Once locked, or once cancelled, a schedule refuses every cancellation on every
      continuation of the run. */
  lemma NoLaterCancellation(env: Env, c: Chain, rows: seq<Row>, ix: Instruction, later: seq<Event>, rows2: seq<Row>, ix2: Instruction)
    requires Solvent(env, c) && (ix.MakeNonCancelable? || ix.Cancel?) && Execute(env, c, rows, ix).Ok?
    requires ValidRun(env, Execute(env, c, rows, ix).value, later)
    requires ix2.Cancel? && ScheduleAccount(env, ix2.scheduleId) == ScheduleAccount(env, ix.scheduleId)
    ensures Execute(env, Run(env, Execute(env, c, rows, ix).value, later), rows2, ix2).Err?
  {
    var c1, k := Execute(env, c, rows, ix).value, ScheduleAccount(env, ix.scheduleId);
    if ix.Cancel? {
      CancelTxKeeps(env, c, rows, ix);
      CancelLandsIff(env, c, rows, ix);
    } else {
      HandleTxKeeps(env, c, rows, ix);
      HandleLandsIff(env, c, rows, ix);
    }
    RunEvolves(env, c1, later, k);
    CancelLandsIff(env, Run(env, c1, later), rows2, ix2);
  }

  /** After a landed transfer exactly the new holder may claim, and exactly what the
      old one could have. */
  lemma OnlyTheNewHolderClaims(env: Env, c: Chain, rows: seq<Row>, ix: Instruction, rows2: seq<Row>, ix2: Instruction)
    requires Solvent(env, c) && ix.TransferBeneficiary? && Execute(env, c, rows, ix).Ok?
    requires ix2.Claim? && ScheduleAccount(env, ix2.scheduleId) == ScheduleAccount(env, ix.scheduleId) && |rows2| == 4
    ensures var k := ScheduleAccount(env, ix.scheduleId);
            k in c.shards &&
            (Execute(env, Execute(env, c, rows, ix).value, rows2, ix2).Ok? <==>
              && rows2[3].account == ix.newBeneficiary
              && Execute(env, c, rows2[3 := rows2[3].(account := c.shards[k].beneficiary)], ix2).Ok?)
  {
    HandleTxKeeps(env, c, rows, ix);
    HandleLandsIff(env, c, rows, ix);
    var c1, k := Execute(env, c, rows, ix).value, ScheduleAccount(env, ix.scheduleId);
    ClaimLandsIff(env, c1, rows2, ix2);
    ClaimLandsIff(env, c, rows2[3 := rows2[3].(account := c.shards[k].beneficiary)], ix2);
    ClaimedDoesNotMatter(c.shards[k], c1.shards[k], ix2.at);
  }
}
