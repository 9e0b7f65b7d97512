/** The vesting program of programs/vesting/core/src/lib.rs: `plan`, which sees
    rows and signers but never data, and `apply`, which sees one shard. */
module VestingProgram {
  import opened Arithmetic
  import opened Bits
  import opened Words
  import opened Wrappers
  import Schedules
  import WideInt

  const CANCEL_WINDOW_MS := 120_000
  const MAX_TRANCHES := 64

  type AccountId = Bytes32

  const NO_ACCOUNT: AccountId := 0
  const NATIVE_TOKEN_PROGRAM_ID: AccountId := 0

  /** The refusal codes of errors.rs. */
  datatype Refusal =
    | BadSchedule | NotAnchored | NothingClaimable | NotBeneficiary | TimeWentBackwards
    | EscrowMismatch | NotCreator | NotCancelable | AlreadyCancelled | NotTransferable
    | MilestoneBad | NotAuthority | WrongAsset | WrongRefund | Batch | Exists
    | RefundAmount | Accounts | NotSigned

  datatype Asset = Native | Token(definitionId: Bytes32) {
    function Code(): (u8, Bytes32) {
      match this
      case Native => (0, 0)
      case Token(d) => (1, d)
    }

    function ShardProgram(env: Env): AccountId {
      match this
      case Native => NATIVE_TOKEN_PROGRAM_ID
      case Token(_) => env.tokenProgram
    }
  }

  datatype Terms = Terms(
    kind: u8, start: u64, cliff: u64, end: u64, total: u128, tranches: u32,
    cancelable: bool, transferable: bool,
    cancelAuthority: AccountId, milestoneAuthority: AccountId, refundTo: AccountId)

  datatype Instruction =
    | CreateSchedule(scheduleId: Bytes32, beneficiary: AccountId, asset: Asset, terms: Terms)
    | CreateScheduleBatch(batchId: Bytes32, beneficiaries: seq<AccountId>, asset: Asset, terms: Terms)
    | Claim(scheduleId: Bytes32, inBatch: Option<Bytes32>, asset: Asset, amount: u128, at: u64)
    | Cancel(scheduleId: Bytes32, inBatch: Option<Bytes32>, asset: Asset, at: u64, refund: u128)
    | MakeNonCancelable(scheduleId: Bytes32)
    | TransferBeneficiary(scheduleId: Bytes32, newBeneficiary: AccountId)
    | SignalMilestone(scheduleId: Bytes32, index: u32)

  datatype VestingSchedule = VestingSchedule(
    kind: u8, start: u64, cliff: u64, end: u64, total: u128, claimed: u128, lastSeen: u64,
    beneficiary: AccountId, escrow: AccountId, creator: AccountId,
    cancelable: u8, transferable: u8, cancelledAt: u64, signalled: u64, tranches: u32,
    asset: u8, tokenDefinition: Bytes32,
    refundTo: AccountId, cancelAuthority: AccountId, milestoneAuthority: AccountId)

  datatype Effect =
    | ECreate(state: VestingSchedule)
    | EClaim(beneficiary: AccountId, holding: AccountId, asset: Asset, amount: u128, at: u64)
    | ECancel(authority: AccountId, holding: AccountId, refundTo: AccountId, asset: Asset, at: u64, refund: u128)
    | EMakeNonCancelable(creator: AccountId)
    | ETransferBeneficiary(beneficiary: AccountId, newBeneficiary: AccountId)
    | ESignalMilestone(authority: AccountId, index: u32)

  /** An account row of a transaction: the account, whether it signed, and the shard selected on it. */
  datatype Row = Row(account: AccountId, isAuthorized: bool, program: AccountId)

  /** A chained transfer, with the seeds this program attaches to it. */
  datatype Call = Call(asset: Asset, from: AccountId, to: AccountId, amount: u128, seeds: seq<Bytes32>)

  /** Block timestamps in [from, until) are acceptable. */
  datatype Window = Window(from: u64, until: Option<u64>) {
    predicate Contains(now: u64) {
      from <= now && (until.Some? ==> now < until.value)
    }
  }

  /** What a plan announces, for clients that follow a schedule. */
  datatype Announcement =
    | ScheduleCreated(scheduleId: Bytes32, beneficiary: AccountId, holding: AccountId, asset: Asset, kind: u8, total: u128)
    | BatchCreated(batchId: Bytes32, holding: AccountId, asset: Asset, count: u32, totalEach: u128)
    | Claimed(scheduleId: Bytes32, amount: u128, at: u64, destination: AccountId)
    | Cancelled(scheduleId: Bytes32, at: u64, refund: u128, refundTo: AccountId)
    | MadeNonCancelable(scheduleId: Bytes32)
    | BeneficiaryTransferred(scheduleId: Bytes32, from: AccountId, to: AccountId)
    | MilestoneSignalled(scheduleId: Bytes32, index: u32)

  datatype Plan = Plan(window: Window, effects: seq<(Row, Effect)>, calls: seq<Call>, event: Announcement)

  // --------------------------------------------------------------- addresses

  /** This program's own id, the token program, and the two hashes: a seed to a
      program-derived account, and two 32-byte words to one. Nothing is assumed of them. */
  datatype Env = Env(
    me: AccountId,
    tokenProgram: AccountId,
    pda: Bytes32 -> AccountId,
    sha: (Bytes32, Bytes32) -> Bytes32)

  /** The word "holding", zero-padded to 32 bytes. */
  const HOLDING_WORD: Bytes32 :=
    0x686f6c64_696e6700_00000000_00000000_00000000_00000000_00000000_00000000

  function HoldingSeed(env: Env, id: Bytes32): Bytes32 {
    env.sha(id, HOLDING_WORD)
  }

  function ScheduleAccount(env: Env, scheduleId: Bytes32): AccountId {
    env.pda(scheduleId)
  }

  function HoldingAccount(env: Env, id: Bytes32): AccountId {
    env.pda(HoldingSeed(env, id))
  }

  /** The four little-endian bytes of `i`, zero-padded to 32. */
  function IndexWord(i: u32): Bytes32 {
    (i % 0x100 * 0x100_0000 + i / 0x100 % 0x100 * 0x1_0000 + i / 0x1_0000 % 0x100 * 0x100 + i / 0x100_0000)
      * 0x100000000_00000000_00000000_00000000_00000000_00000000_00000000
  }

  lemma SameBytes(a0: int, a1: int, a2: int, a3: int, b0: int, b1: int, b2: int, b3: int)
    requires 0 <= a0 < 0x100 && 0 <= a1 < 0x100 && 0 <= a2 < 0x100 && 0 <= a3 < 0x100
    requires 0 <= b0 < 0x100 && 0 <= b1 < 0x100 && 0 <= b2 < 0x100 && 0 <= b3 < 0x100
    requires a0 * 0x100_0000 + a1 * 0x1_0000 + a2 * 0x100 + a3 == b0 * 0x100_0000 + b1 * 0x1_0000 + b2 * 0x100 + b3
    ensures a0 == b0 && a1 == b1 && a2 == b2 && a3 == b3
  {
  }

  /** The four bytes of an index, most significant first. */
  lemma Bytes4(i: u32)
    ensures i == i / 0x100_0000 * 0x100_0000 + i / 0x1_0000 % 0x100 * 0x1_0000 + i / 0x100 % 0x100 * 0x100 + i % 0x100
    ensures 0 <= i / 0x100_0000 < 0x100
  {
    assert i / 0x100 / 0x100 == i / 0x1_0000 && i / 0x1_0000 / 0x100 == i / 0x100_0000;
  }

  lemma BytesOf(w: int, b0: int, b1: int, b2: int, b3: int)
    requires 0 <= b0 < 0x100 && 0 <= b1 < 0x100 && 0 <= b2 < 0x100 && 0 <= b3 < 0x100
    requires w == b0 * 0x100_0000 + b1 * 0x1_0000 + b2 * 0x100 + b3
    ensures w / 0x100_0000 == b0 && w / 0x1_0000 % 0x100 == b1 && w / 0x100 % 0x100 == b2 && w % 0x100 == b3
  {
    assert w / 0x1_0000 == b0 * 0x100 + b1;
    assert w / 0x100 == b0 * 0x1_0000 + b1 * 0x100 + b2;
  }

  /** The bytes of the word, first to last: those of the index from its least
      significant one, and then nothing. */
  lemma IndexWordBytes(i: u32)
    ensures var w := IndexWord(i) / 0x100000000_00000000_00000000_00000000_00000000_00000000_00000000;
            && IndexWord(i) % 0x100000000_00000000_00000000_00000000_00000000_00000000_00000000 == 0
            && w / 0x100_0000 == i % 0x100 && w / 0x1_0000 % 0x100 == i / 0x100 % 0x100
            && w / 0x100 % 0x100 == i / 0x1_0000 % 0x100 && w % 0x100 == i / 0x100_0000
  {
    Bytes4(i);
    var b0, b1, b2, b3 := i % 0x100, i / 0x100 % 0x100, i / 0x1_0000 % 0x100, i / 0x100_0000;
    var w := b0 * 0x100_0000 + b1 * 0x1_0000 + b2 * 0x100 + b3;
    BytesOf(w, b0, b1, b2, b3);
    DivUnique(IndexWord(i), 0x100000000_00000000_00000000_00000000_00000000_00000000_00000000, w, 0);
  }

  /** The characters of a word, first to last, as one number. */
  function Spelled(s: string): nat {
    if s == [] then 0 else Spelled(s[..|s| - 1]) * 0x100 + s[|s| - 1] as int
  }

  lemma HoldingWordSpells()
    ensures HOLDING_WORD == Spelled("holding") * 0x100_00000000_00000000_00000000_00000000_00000000_00000000
  {
    var s := "holding";
    assert s[..1][..0] == [] && s[..2][..1] == s[..1] && s[..3][..2] == s[..2] && s[..4][..3] == s[..3];
    assert s[..5][..4] == s[..4] && s[..6][..5] == s[..5] && s[..7][..6] == s[..6] && s[..7] == s;
    assert Spelled(s[..1]) == 0x68 && Spelled(s[..2]) == 0x686f && Spelled(s[..3]) == 0x686f6c;
    assert Spelled(s[..5]) == 0x686f6c64_69 && Spelled(s[..6]) == 0x686f6c64_696e;
  }

  /** Different places in a batch have different words, so the ids of a batch are
      told apart as far as the hash tells words apart. */
  lemma IndexWordInjective(i: u32, j: u32)
    ensures IndexWord(i) == IndexWord(j) <==> i == j
  {
    if IndexWord(i) == IndexWord(j) {
      Bytes4(i);
      Bytes4(j);
      SameBytes(i % 0x100, i / 0x100 % 0x100, i / 0x1_0000 % 0x100, i / 0x100_0000,
                j % 0x100, j / 0x100 % 0x100, j / 0x1_0000 % 0x100, j / 0x100_0000);
    }
  }

  /** The escrow's word is no index's: it has letters where an index has nothing. */
  lemma HoldingWordIsNoIndex(i: u32)
    ensures HOLDING_WORD != IndexWord(i)
  {
    IndexWordBytes(i);
  }

  /** A derivation and a hash without collisions. */
  ghost predicate Collisionless(env: Env) {
    && (forall a, b {:trigger env.pda(a), env.pda(b)} :: env.pda(a) == env.pda(b) ==> a == b)
    && (forall a, b, c, d {:trigger env.sha(a, b), env.sha(c, d)} :: env.sha(a, b) == env.sha(c, d) ==> a == c && b == d)
  }

  /** As far as nothing collides, escrows are told apart by their ids, schedules by
      their ids, those of batches by batch and place, and no escrow is a schedule of
      a batch. */
  lemma AccountsToldApart(env: Env, a: Bytes32, b: Bytes32, i: u32, j: u32)
    requires Collisionless(env)
    ensures HoldingAccount(env, a) == HoldingAccount(env, b) <==> a == b
    ensures ScheduleAccount(env, a) == ScheduleAccount(env, b) <==> a == b
    ensures ScheduleAccount(env, BatchScheduleId(env, a, i)) == ScheduleAccount(env, BatchScheduleId(env, b, j)) <==> a == b && i == j
    ensures HoldingAccount(env, a) != ScheduleAccount(env, BatchScheduleId(env, b, j))
  {
    IndexWordInjective(i, j);
    HoldingWordIsNoIndex(j);
  }

  function BatchScheduleId(env: Env, batchId: Bytes32, i: u32): Bytes32 {
    env.sha(batchId, IndexWord(i))
  }

  // -------------------------------------------------------------- arithmetic

  function Require(ok: bool, code: Refusal): Result<(), Refusal> {
    if ok then Ok(()) else Err(code)
  }

  function MilestoneVested(s: VestingSchedule): Result<u128, Refusal> {
    var _ :- Require(s.tranches != 0 && s.tranches <= MAX_TRANCHES, MilestoneBad);
    match WideInt.FloorQuotient(s.total, Popcount(s.signalled), s.tranches)
    case Ok(v) => Ok(v)
    case Err(_) => Err(MilestoneBad)
  }

  function Rebuild(s: VestingSchedule): (r: Result<Schedules.Position, Refusal>)
    ensures r.Ok? ==> r.value.kind != Schedules.Kind.Milestone
  {
    var built :-
      if s.kind == 0 then Ok(Schedules.NewCliffLinear(s.start, s.cliff, s.end, s.total))
      else if s.kind == 1 then Ok(Schedules.NewLinear(s.start, s.end, s.total))
      else Err(BadSchedule);
    match built
    case Err(_) => Err(BadSchedule)
    case Ok(p) => Ok(p.(claimed := s.claimed, cancelledAt := if s.cancelledAt != 0 then Some(s.cancelledAt) else p.cancelledAt))
  }

  /** A stored schedule is rebuilt exactly when its terms are those of a time
      schedule the constructors accept, as a position of the same terms, claims and
      cancellation; everything else is one and the same refusal. */
  lemma RebuildIs(s: VestingSchedule)
    ensures Rebuild(s).Ok? <==> s.total > 0 && ((s.kind == 0 && s.start <= s.cliff < s.end) || (s.kind == 1 && s.start < s.end))
    ensures Rebuild(s).Err? ==> Rebuild(s) == Err(BadSchedule)
    ensures Rebuild(s).Ok? ==>
              var p := Rebuild(s).value;
              && Schedules.Shape(p)
              && (p.start, p.end, p.total, p.claimed) == (s.start, s.end, s.total, s.claimed)
              && (s.kind == 0 ==> p.kind == Schedules.Kind.CliffLinear && p.cliff == s.cliff)
              && (s.kind == 1 ==> p.kind == Schedules.Kind.Linear)
              && p.cancelledAt == if s.cancelledAt != 0 then Some(s.cancelledAt) else None
  {
  }

  /** What has vested by `t`, frozen at a cancellation. */
  function Vested(s: VestingSchedule, t: u64): Result<u128, Refusal> {
    if s.kind == 2 then MilestoneVested(s)
    else
      var p :- Rebuild(s);
      Ok(Schedules.VestedAt(p, t))
  }

  function Claimable(s: VestingSchedule, t: u64): Result<u128, Refusal> {
    var v :- Vested(s, t);
    Ok(if v <= s.claimed then 0 else v - s.claimed)
  }

  function Unvested(s: VestingSchedule, t: u64): Result<u128, Refusal> {
    var v :- Vested(s.(cancelledAt := 0), t);
    if v > s.total then Err(BadSchedule) else Ok(s.total - v)
  }

  function OrCreator(a: AccountId, creator: AccountId): AccountId {
    if a == NO_ACCOUNT then creator else a
  }

  function Flag(b: bool): u8 {
    if b then 1 else 0
  }

  /** The state a creation writes, refused now rather than at the first claim. */
  function NewState(creator: AccountId, escrow: AccountId, beneficiary: AccountId, asset: Asset, terms: Terms)
    : Result<VestingSchedule, Refusal>
  {
    var s := VestingSchedule(
      terms.kind, terms.start, terms.cliff, terms.end, terms.total, 0, 0,
      beneficiary, escrow, creator, Flag(terms.cancelable), Flag(terms.transferable), 0, 0, terms.tranches,
      asset.Code().0, asset.Code().1,
      terms.refundTo, OrCreator(terms.cancelAuthority, creator), OrCreator(terms.milestoneAuthority, creator));
    var _ :-
      if s.kind == 2 then
        var _ :- MilestoneVested(s);
        Require(s.total > 0, BadSchedule)
      else
        var _ :- Require(s.tranches == 0, BadSchedule);
        var _ :- Rebuild(s);
        Ok(());
    var _ :- Require(s.refundTo != NO_ACCOUNT, WrongRefund);
    Ok(s)
  }

  // -------------------------------------------------------------------- plan

  function ExpectSchedule(env: Env, row: Row, scheduleId: Bytes32): Result<(), Refusal> {
    Require(row.account == ScheduleAccount(env, scheduleId) && row.program == env.me, NotAnchored)
  }

  function ExpectHolding(env: Env, row: Row, id: Bytes32, asset: Asset): Result<(), Refusal> {
    var _ :- Require(row.account == HoldingAccount(env, id), EscrowMismatch);
    Require(row.program == asset.ShardProgram(env), WrongAsset)
  }

  function ExpectAssetRow(env: Env, row: Row, asset: Asset): Result<(), Refusal> {
    Require(row.program == asset.ShardProgram(env), WrongAsset)
  }

  function ExpectSigner(env: Env, row: Row): Result<(), Refusal> {
    var _ :- Require(row.isAuthorized, NotSigned);
    Require(row.program == env.me, Accounts)
  }

  const ANY_TIME := Window(0, None)

  /** Row `i + 2` of a batch must be the next schedule of the batch; it gets one creation. */
  function BatchRow(env: Env, batchId: Bytes32, asset: Asset, terms: Terms,
                    rows: seq<Row>, who: seq<AccountId>, i: nat): Result<(Row, Effect), Refusal>
    requires |rows| == |who| + 2 && i < |who| < TWO_POW_32
  {
    var row := rows[i + 2];
    var sid := BatchScheduleId(env, batchId, i);
    var _ :- Require(row.account == ScheduleAccount(env, sid) && row.program == env.me, Batch);
    var state :- NewState(rows[1].account, rows[0].account, who[i], asset, terms);
    Ok((row, ECreate(state)))
  }

  /** The creations of the first `n` rows of a batch, in order. */
  function BatchEffects(env: Env, batchId: Bytes32, asset: Asset, terms: Terms,
                        rows: seq<Row>, who: seq<AccountId>, n: nat): Result<seq<(Row, Effect)>, Refusal>
    requires |rows| == |who| + 2 && n <= |who| < TWO_POW_32
  {
    if n == 0 then Ok([])
    else
      match BatchEffects(env, batchId, asset, terms, rows, who, n - 1)
      case Err(e) => Err(e)
      case Ok(done) =>
        match BatchRow(env, batchId, asset, terms, rows, who, n - 1)
        case Err(e) => Err(e)
        case Ok(next) => Ok(done + [next])
  }

  function SeedId(scheduleId: Bytes32, inBatch: Option<Bytes32>): Bytes32 {
    match inBatch case Some(b) => b case None => scheduleId
  }

  /** Instructions of a schedule row and a signer handle: the signer. */
  function HandleSigner(env: Env, rows: seq<Row>, scheduleId: Bytes32): (r: Result<AccountId, Refusal>)
    ensures r.Ok? ==> |rows| == 2
  {
    var _ :- Require(|rows| == 2, Accounts);
    var _ :- ExpectSchedule(env, rows[0], scheduleId);
    var _ :- ExpectSigner(env, rows[1]);
    Ok(rows[1].account)
  }

  function PlanOfBatch(env: Env, rows: seq<Row>, batchId: Bytes32, beneficiaries: seq<AccountId>, asset: Asset, terms: Terms)
    : Result<Plan, Refusal>
  {
    var n := |beneficiaries|;
    var _ :- Require(n >= 1 && |rows| == n + 2, Batch);
    var holding, creator := rows[0], rows[1];
    var _ :- ExpectHolding(env, holding, batchId, asset);
    var _ :- ExpectAssetRow(env, creator, asset);
    var _ :- Require(creator.isAuthorized, NotSigned);
    var _ :- Require(n < TWO_POW_32, Batch);
    var _ :- Require(terms.total * n < TWO_POW_128, Batch);
    var effects :- BatchEffects(env, batchId, asset, terms, rows, beneficiaries, n);
    BatchTotal(terms.total, n);
    Ok(Plan(ANY_TIME, effects, [Call(asset, creator.account, holding.account, terms.total * n, [])],
            BatchCreated(batchId, holding.account, asset, n, terms.total)))
  }

  /** What a transaction with these rows asks for, or why it is refused before any data is seen. */
  function PlanOf(env: Env, rows: seq<Row>, ix: Instruction): Result<Plan, Refusal> {
    match ix
    case CreateSchedule(scheduleId, beneficiary, asset, terms) =>
      var _ :- Require(|rows| == 3, Accounts);
      var schedule, holding, creator := rows[0], rows[1], rows[2];
      var _ :- ExpectSchedule(env, schedule, scheduleId);
      var _ :- ExpectHolding(env, holding, scheduleId, asset);
      var _ :- ExpectAssetRow(env, creator, asset);
      var _ :- Require(creator.isAuthorized, NotSigned);
      var state :- NewState(creator.account, holding.account, beneficiary, asset, terms);
      Ok(Plan(ANY_TIME, [(schedule, ECreate(state))], [Call(asset, creator.account, holding.account, terms.total, [])],
              ScheduleCreated(scheduleId, beneficiary, holding.account, asset, terms.kind, terms.total)))

    case CreateScheduleBatch(batchId, beneficiaries, asset, terms) =>
      PlanOfBatch(env, rows, batchId, beneficiaries, asset, terms)

    case Claim(scheduleId, inBatch, asset, amount, at) =>
      var _ :- Require(|rows| == 4, Accounts);
      var schedule, holding, destination, beneficiary := rows[0], rows[1], rows[2], rows[3];
      var seedId := SeedId(scheduleId, inBatch);
      var _ :- ExpectSchedule(env, schedule, scheduleId);
      var _ :- ExpectHolding(env, holding, seedId, asset);
      var _ :- ExpectAssetRow(env, destination, asset);
      var _ :- ExpectSigner(env, beneficiary);
      var _ :- Require(amount > 0, NothingClaimable);
      Ok(Plan(Window(at, None),
              [(schedule, EClaim(beneficiary.account, holding.account, asset, amount, at))],
              [Call(asset, holding.account, destination.account, amount, [HoldingSeed(env, seedId)])],
              Claimed(scheduleId, amount, at, destination.account)))

    case Cancel(scheduleId, inBatch, asset, at, refund) =>
      var _ :- Require(|rows| == 4, Accounts);
      var schedule, holding, refundRow, authority := rows[0], rows[1], rows[2], rows[3];
      var seedId := SeedId(scheduleId, inBatch);
      var _ :- ExpectSchedule(env, schedule, scheduleId);
      var _ :- ExpectHolding(env, holding, seedId, asset);
      var _ :- ExpectAssetRow(env, refundRow, asset);
      var _ :- ExpectSigner(env, authority);
      var _ :- Require(at + CANCEL_WINDOW_MS < TWO_POW_64, TimeWentBackwards);
      Ok(Plan(Window(at, Some(at + CANCEL_WINDOW_MS)),
              [(schedule, ECancel(authority.account, holding.account, refundRow.account, asset, at, refund))],
              if refund > 0 then [Call(asset, holding.account, refundRow.account, refund, [HoldingSeed(env, seedId)])] else [],
              Cancelled(scheduleId, at, refund, refundRow.account)))

    case MakeNonCancelable(scheduleId) =>
      var signer :- HandleSigner(env, rows, scheduleId);
      Ok(Plan(ANY_TIME, [(rows[0], EMakeNonCancelable(signer))], [], MadeNonCancelable(scheduleId)))
    case TransferBeneficiary(scheduleId, newBeneficiary) =>
      var signer :- HandleSigner(env, rows, scheduleId);
      Ok(Plan(ANY_TIME, [(rows[0], ETransferBeneficiary(signer, newBeneficiary))], [], BeneficiaryTransferred(scheduleId, signer, newBeneficiary)))
    case SignalMilestone(scheduleId, index) =>
      var signer :- HandleSigner(env, rows, scheduleId);
      Ok(Plan(ANY_TIME, [(rows[0], ESignalMilestone(signer, index))], [], MilestoneSignalled(scheduleId, index)))
  }

  /** A creation at the account of one schedule id, on the announced terms. */
  predicate CreationTold(env: Env, effect: (Row, Effect), scheduleId: Bytes32, creator: AccountId, holding: AccountId, asset: Asset, total: nat) {
    && effect.0.account == ScheduleAccount(env, scheduleId) && effect.1.ECreate?
    && effect.1.state.creator == creator && effect.1.state.escrow == holding && (effect.1.state.asset, effect.1.state.tokenDefinition) == asset.Code()
    && effect.1.state.total == total
  }

  lemma {:induction false} BatchTold(env: Env, batchId: Bytes32, asset: Asset, terms: Terms,
                                     rows: seq<Row>, who: seq<AccountId>, n: nat)
    requires |rows| == |who| + 2 && n <= |who| < TWO_POW_32
    requires BatchEffects(env, batchId, asset, terms, rows, who, n).Ok?
    ensures var effects := BatchEffects(env, batchId, asset, terms, rows, who, n).value;
            && |effects| == n
            && forall i :: 0 <= i < n ==> CreationTold(env, effects[i], BatchScheduleId(env, batchId, i), rows[1].account, rows[0].account, asset, terms.total)
                                          && effects[i].1.state.beneficiary == who[i]
  {
    if n > 0 {
      BatchTold(env, batchId, asset, terms, rows, who, n - 1);
    }
  }

  /** The announcement of a plan names the account of every schedule it writes, and
      agrees with what is written and with what is transferred, out of or into which
      account. */
  predicate TellsThePlan(env: Env, plan: Plan) {
    match plan.event
    case ScheduleCreated(id, beneficiary, holding, asset, kind, total) =>
      && |plan.effects| == |plan.calls| == 1 && CreationTold(env, plan.effects[0], id, plan.calls[0].from, holding, asset, total)
      && plan.effects[0].1.state.beneficiary == beneficiary && plan.effects[0].1.state.kind == kind
      && Moves(plan.calls[0], asset, plan.calls[0].from, holding, total)
    case BatchCreated(batchId, holding, asset, count, totalEach) =>
      && |plan.effects| == count > 0 && |plan.calls| == 1
      && (forall i :: 0 <= i < count ==>
            CreationTold(env, plan.effects[i], BatchScheduleId(env, batchId, i), plan.calls[0].from, holding, asset, totalEach))
      && Moves(plan.calls[0], asset, plan.calls[0].from, holding, totalEach * count)
    case Claimed(id, amount, at, destination) =>
      && Writes(env, plan, id) && plan.window.from == at
      && plan.effects[0].1.EClaim? && var e := plan.effects[0].1;
      && (e.amount, e.at) == (amount, at)
      && |plan.calls| == 1 && Moves(plan.calls[0], e.asset, e.holding, destination, amount)
    case Cancelled(id, at, refund, refundTo) =>
      && Writes(env, plan, id) && plan.window.from == at
      && plan.effects[0].1.ECancel? && var e := plan.effects[0].1;
      && (e.at, e.refund, e.refundTo) == (at, refund, refundTo)
      && (if refund == 0 then plan.calls == [] else |plan.calls| == 1 && Moves(plan.calls[0], e.asset, e.holding, refundTo, refund))
    case MadeNonCancelable(id) =>
      Writes(env, plan, id) && plan.effects[0].1.EMakeNonCancelable? && plan.calls == []
    case BeneficiaryTransferred(id, from, to) =>
      Writes(env, plan, id) && plan.effects[0].1 == ETransferBeneficiary(from, to) && plan.calls == []
    case MilestoneSignalled(id, index) =>
      && Writes(env, plan, id) && plan.calls == []
      && plan.effects[0].1.ESignalMilestone? && plan.effects[0].1.index == index
  }

  /** One schedule is written, the one of that id. */
  predicate Writes(env: Env, plan: Plan, scheduleId: Bytes32) {
    |plan.effects| == 1 && plan.effects[0].0.account == ScheduleAccount(env, scheduleId)
  }

  predicate Moves(call: Call, asset: Asset, from: AccountId, to: AccountId, amount: int) {
    (call.asset, call.from, call.to, call.amount) == (asset, from, to, amount)
  }

  lemma AnnouncementTellsThePlan(env: Env, rows: seq<Row>, ix: Instruction)
    requires PlanOf(env, rows, ix).Ok?
    ensures TellsThePlan(env, PlanOf(env, rows, ix).value)
  {
    if ix.CreateScheduleBatch? {
      BatchTold(env, ix.batchId, ix.asset, ix.terms, rows, ix.beneficiaries, |ix.beneficiaries|);
    }
  }

  lemma BatchTotal(total: nat, n: nat)
    ensures 0 <= total * n
  {
  }

  lemma {:induction false} BatchStops(env: Env, batchId: Bytes32, asset: Asset, terms: Terms,
                                      rows: seq<Row>, who: seq<AccountId>, i: nat, n: nat)
    requires |rows| == |who| + 2 && i <= n <= |who| < TWO_POW_32
    requires BatchEffects(env, batchId, asset, terms, rows, who, i).Err?
    ensures BatchEffects(env, batchId, asset, terms, rows, who, n) == BatchEffects(env, batchId, asset, terms, rows, who, i)
  {
    if i < n {
      BatchStops(env, batchId, asset, terms, rows, who, i, n - 1);
    }
  }

  lemma BatchNext(env: Env, batchId: Bytes32, asset: Asset, terms: Terms, rows: seq<Row>, who: seq<AccountId>, i: nat, done: seq<(Row, Effect)>)
    requires |rows| == |who| + 2 && i < |who| < TWO_POW_32
    requires BatchEffects(env, batchId, asset, terms, rows, who, i) == Ok(done)
    ensures BatchEffects(env, batchId, asset, terms, rows, who, i + 1)
         == match BatchRow(env, batchId, asset, terms, rows, who, i) case Err(e) => Err(e) case Ok(next) => Ok(done + [next])
  {
  }

  /** One pass of the loop: the row must be the next schedule of the batch, and its state valid. */
  method CreateNext(env: Env, rows: seq<Row>, batchId: Bytes32, beneficiaries: seq<AccountId>, asset: Asset, terms: Terms, i: nat)
    returns (r: Result<(Row, Effect), Refusal>)
    requires |rows| == |beneficiaries| + 2 && i < |beneficiaries| < TWO_POW_32
    ensures r == BatchRow(env, batchId, asset, terms, rows, beneficiaries, i)
  {
    var row, who := rows[2..][i], beneficiaries[i];
    var sid := BatchScheduleId(env, batchId, i);
    if !(row.account == ScheduleAccount(env, sid) && row.program == env.me) {
      return Err(Batch);
    }
    var state :- NewState(rows[1].account, rows[0].account, who, asset, terms);
    return Ok((row, ECreate(state)));
  }

  /** The loop of the batch branch: one pass over the schedule rows, appending
      one creation per beneficiary and stopping at the first refusal. */
  method CreateAll(env: Env, rows: seq<Row>, batchId: Bytes32, beneficiaries: seq<AccountId>, asset: Asset, terms: Terms)
    returns (r: Result<seq<(Row, Effect)>, Refusal>)
    requires |rows| == |beneficiaries| + 2 && |beneficiaries| < TWO_POW_32
    ensures r == BatchEffects(env, batchId, asset, terms, rows, beneficiaries, |beneficiaries|)
  {
    var n := |beneficiaries|;
    var effects: seq<(Row, Effect)> := [];
    for i := 0 to n
      invariant BatchEffects(env, batchId, asset, terms, rows, beneficiaries, i) == Ok(effects)
    {
      BatchNext(env, batchId, asset, terms, rows, beneficiaries, i, effects);
      var next := CreateNext(env, rows, batchId, beneficiaries, asset, terms, i);
      if next.Err? {
        BatchStops(env, batchId, asset, terms, rows, beneficiaries, i + 1, n);
        return Err(next.error);
      }
      effects := effects + [next.value];
    }
    return Ok(effects);
  }

  /** The batch branch of `plan` as it runs: its checks, the loop, and one transfer for all. */
  method PlanBatch(env: Env, rows: seq<Row>, batchId: Bytes32, beneficiaries: seq<AccountId>, asset: Asset, terms: Terms)
    returns (r: Result<Plan, Refusal>)
    ensures r == PlanOfBatch(env, rows, batchId, beneficiaries, asset, terms)
  {
    var n := |beneficiaries|;
    if !(n >= 1 && |rows| == n + 2) {
      return Err(Batch);
    }
    var holding, creator := rows[0], rows[1];
    var _ :- ExpectHolding(env, holding, batchId, asset);
    var _ :- ExpectAssetRow(env, creator, asset);
    if !creator.isAuthorized {
      return Err(NotSigned);
    }
    if n >= TWO_POW_32 {
      return Err(Batch);
    }
    if terms.total * n >= TWO_POW_128 {
      return Err(Batch);
    }
    var effects :- CreateAll(env, rows, batchId, beneficiaries, asset, terms);
    BatchTotal(terms.total, n);
    return Ok(Plan(ANY_TIME, effects, [Call(asset, creator.account, holding.account, terms.total * n, [])],
                   BatchCreated(batchId, holding.account, asset, n, terms.total)));
  }

  // ------------------------------------------------------------------- apply

  function Load(pre: Option<VestingSchedule>): Result<VestingSchedule, Refusal> {
    match pre case None => Err(NotAnchored) case Some(s) => Ok(s)
  }

  /** One effect against one schedule shard, present or absent. */
  function Apply(effect: Effect, pre: Option<VestingSchedule>): Result<VestingSchedule, Refusal> {
    match effect
    case ECreate(state) =>
      var _ :- Require(pre == None, Exists);
      Ok(state)

    case EClaim(beneficiary, holding, asset, amount, at) =>
      var s :- Load(pre);
      var _ :- Require(s.beneficiary == beneficiary, NotBeneficiary);
      var _ :- Require(s.escrow == holding, EscrowMismatch);
      var _ :- Require(asset.Code() == (s.asset, s.tokenDefinition), WrongAsset);
      var owed :- Claimable(s, at);
      var _ :- Require(amount <= owed, NothingClaimable);
      var _ :- Require(s.claimed + amount < TWO_POW_128, BadSchedule);
      Ok(s.(claimed := s.claimed + amount, lastSeen := if s.lastSeen < at then at else s.lastSeen))

    case ECancel(authority, holding, refundTo, asset, at, refund) =>
      var s :- Load(pre);
      var _ :- Require(s.cancelAuthority == authority, NotAuthority);
      var _ :- Require(s.cancelable != 0, NotCancelable);
      var _ :- Require(s.cancelledAt == 0, AlreadyCancelled);
      var _ :- Require(s.refundTo == refundTo, WrongRefund);
      var _ :- Require(s.escrow == holding, EscrowMismatch);
      var _ :- Require(asset.Code() == (s.asset, s.tokenDefinition), WrongAsset);
      var _ :- Require(at >= s.lastSeen, TimeWentBackwards);
      var rest :- Unvested(s, at);
      var _ :- Require(refund == rest, RefundAmount);
      Ok(s.(cancelledAt := if at < 1 then 1 else at, lastSeen := at))

    case EMakeNonCancelable(creator) =>
      var s :- Load(pre);
      var _ :- Require(s.creator == creator, NotCreator);
      var _ :- Require(s.cancelable != 0, NotCancelable);
      Ok(s.(cancelable := 0))

    case ETransferBeneficiary(beneficiary, newBeneficiary) =>
      var s :- Load(pre);
      var _ :- Require(s.transferable != 0, NotTransferable);
      var _ :- Require(s.beneficiary == beneficiary, NotBeneficiary);
      Ok(s.(beneficiary := newBeneficiary))

    case ESignalMilestone(authority, index) =>
      var s :- Load(pre);
      var _ :- Require(s.milestoneAuthority == authority, NotAuthority);
      var _ :- Require(s.kind == 2, MilestoneBad);
      var _ :- Require(s.cancelledAt == 0, AlreadyCancelled);
      var _ :- Require(index < if s.tranches < MAX_TRANCHES then s.tranches else MAX_TRANCHES, MilestoneBad);
      var _ :- Require(!Bit(s.signalled, index), MilestoneBad);
      WordHolds(s.signalled, index);
      Ok(s.(signalled := SetBit(s.signalled, index)))
  }

  lemma WordHolds(w: u64, i: nat)
    requires i < 64 && !Bit(w, i)
    ensures 0 <= SetBit(w, i) < TWO_POW_64
  {
    Pow2At64();
    SetBelow(w, i, 64);
  }

  /** The bytes of a shard: none, those of a schedule, or something else. */
  datatype Bytes = Empty | Encoded(schedule: VestingSchedule) | Garbled

  /** `load`: refuses an empty shard and one that does not decode. */
  function Decode(pre: Bytes): Result<VestingSchedule, Refusal> {
    match pre
    case Empty => Err(NotAnchored)
    case Encoded(s) => Ok(s)
    case Garbled => Err(BadSchedule)
  }

  /** `apply` on any bytes: those of no schedule refuse everything. */
  function ApplyToBytes(effect: Effect, pre: Bytes): Result<VestingSchedule, Refusal> {
    match pre
    case Empty => Apply(effect, None)
    case Encoded(s) => Apply(effect, Some(s))
    case Garbled => Err(if effect.ECreate? then Exists else BadSchedule)
  }

  /** On a shard that holds no schedule only a creation of an empty one is accepted,
      and nothing is ever created over bytes that are there. */
  lemma OnlyEmptyIsCreated(effect: Effect, pre: Bytes)
    ensures effect.ECreate? ==> ApplyToBytes(effect, pre) == if pre == Empty then Ok(effect.state) else Err(Exists)
    ensures !effect.ECreate? && pre == Empty ==> ApplyToBytes(effect, pre) == Err(NotAnchored)
    ensures !effect.ECreate? && pre == Garbled ==> ApplyToBytes(effect, pre) == Err(BadSchedule)
  {
    match pre
    case Encoded(s) => assert ApplyToBytes(effect, pre) == Apply(effect, Some(s));
    case _ =>
  }

  /** An accepted effect is stored; a refused one is reported and stores nothing. */
  predicate Answers(outcome: Result<VestingSchedule, Refusal>, before: Bytes, after: Bytes, res: Result<(), Refusal>) {
    match outcome
    case Ok(s) => res == Ok(()) && after == Encoded(s)
    case Err(e) => res == Err(e) && after == before
  }

  /** One shard as `apply` runs on it: loaded, changed field by field, stored. */
  class Shard {
    var stored: Bytes

    constructor (pre: Bytes)
      ensures stored == pre
    {
      stored := pre;
    }

    method Take(effect: Effect) returns (res: Result<(), Refusal>)
      modifies this
      ensures Answers(ApplyToBytes(effect, old(stored)), old(stored), stored, res)
    {
      match effect {
        case ECreate(state) =>
          if stored != Empty {
            return Err(Exists);
          }
          stored := Encoded(state);
        case EClaim(_, _, _, _, _) => res := TakeClaim(effect);
          return;
        case ECancel(_, _, _, _, _, _) => res := TakeCancel(effect);
          return;
        case EMakeNonCancelable(creator) =>
          var s :- Decode(stored);
          if s.creator != creator {
            return Err(NotCreator);
          }
          if s.cancelable == 0 {
            return Err(NotCancelable);
          }
          stored := Encoded(s.(cancelable := 0));
        case ETransferBeneficiary(beneficiary, newBeneficiary) =>
          var s :- Decode(stored);
          if s.transferable == 0 {
            return Err(NotTransferable);
          }
          if s.beneficiary != beneficiary {
            return Err(NotBeneficiary);
          }
          stored := Encoded(s.(beneficiary := newBeneficiary));
        case ESignalMilestone(_, _) => res := TakeSignal(effect);
          return;
      }
      return Ok(());
    }

    method TakeClaim(effect: Effect) returns (res: Result<(), Refusal>)
      requires effect.EClaim?
      modifies this
      ensures Answers(ApplyToBytes(effect, old(stored)), old(stored), stored, res)
    {
      var s :- Decode(stored);
      if s.beneficiary != effect.beneficiary {
        return Err(NotBeneficiary);
      }
      if s.escrow != effect.holding {
        return Err(EscrowMismatch);
      }
      if effect.asset.Code() != (s.asset, s.tokenDefinition) {
        return Err(WrongAsset);
      }
      var owed :- Claimable(s, effect.at);
      if effect.amount > owed {
        return Err(NothingClaimable);
      }
      if s.claimed + effect.amount >= TWO_POW_128 {
        return Err(BadSchedule);
      }
      s := s.(claimed := s.claimed + effect.amount);
      if s.lastSeen < effect.at {
        s := s.(lastSeen := effect.at);
      }
      stored := Encoded(s);
      return Ok(());
    }

    method TakeCancel(effect: Effect) returns (res: Result<(), Refusal>)
      requires effect.ECancel?
      modifies this
      ensures Answers(ApplyToBytes(effect, old(stored)), old(stored), stored, res)
    {
      var s :- Decode(stored);
      if s.cancelAuthority != effect.authority {
        return Err(NotAuthority);
      }
      if s.cancelable == 0 {
        return Err(NotCancelable);
      }
      if s.cancelledAt != 0 {
        return Err(AlreadyCancelled);
      }
      if s.refundTo != effect.refundTo {
        return Err(WrongRefund);
      }
      if s.escrow != effect.holding {
        return Err(EscrowMismatch);
      }
      if effect.asset.Code() != (s.asset, s.tokenDefinition) {
        return Err(WrongAsset);
      }
      if effect.at < s.lastSeen {
        return Err(TimeWentBackwards);
      }
      var rest :- Unvested(s, effect.at);
      if effect.refund != rest {
        return Err(RefundAmount);
      }
      s := s.(cancelledAt := if effect.at < 1 then 1 else effect.at);
      s := s.(lastSeen := effect.at);
      stored := Encoded(s);
      return Ok(());
    }

    method TakeSignal(effect: Effect) returns (res: Result<(), Refusal>)
      requires effect.ESignalMilestone?
      modifies this
      ensures Answers(ApplyToBytes(effect, old(stored)), old(stored), stored, res)
    {
      var s :- Decode(stored);
      if s.milestoneAuthority != effect.authority {
        return Err(NotAuthority);
      }
      if s.kind != 2 {
        return Err(MilestoneBad);
      }
      if s.cancelledAt != 0 {
        return Err(AlreadyCancelled);
      }
      if effect.index >= s.tranches || effect.index >= MAX_TRANCHES {
        return Err(MilestoneBad);
      }
      if Bit(s.signalled, effect.index) {
        return Err(MilestoneBad);
      }
      WordHolds(s.signalled, effect.index);
      stored := Encoded(s.(signalled := SetBit(s.signalled, effect.index)));
      return Ok(());
    }
  }
}
