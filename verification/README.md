# Antumbra, modelled and proved

A Dafny model of the parts of Antumbra that hold other people's money or other
people's numbers, and proofs of what they are for: the 256-bit arithmetic and the
bonding curve over it (`src/lib.rs`), the fees (`src/fees.rs`) and the sale program
(`programs/curve`), the vesting arithmetic (`src/vesting.rs`) and the vesting program
with its escrows (`programs/vesting/core`), the two kernels of the weighted swap
(`src/binfixed.rs`, `src/weighted.rs`), and the reader's own codecs and second accrual
(`app/src/vesting_chain.cpp`).

Code that updates something in place, or loops, is a method (or a class with methods)
proved equal to a function of the old state; what the system promises is then proved
of those functions, over all inputs or over all runs. Machine words are ranges of the
integers, so every wrap, truncation and checked operation is written out.

## What is proved

- **Arithmetic.** The two-word product and the 128-step restoring division are exact,
  although the division's shift drops a bit and its subtraction wraps, and they refuse
  exactly a zero divisor and a quotient past 128 bits.
- **Curve.** On every run the product of the virtual reserves never falls, both offsets
  are constant, no refused call moves a field, bought tokens can always be sold back,
  no cycle profits, no splitting of a trade gains, sellers are paid out of what buyers
  paid, and the exact-out quote is the least payment that buys its quantity.
- **Sale.** On every run of buys, sweeps, withdrawals and outside deposits the books
  balance: what came in = swept + paid out + held, a sweep never finds the holding short
  and takes fees only, and after the close the creator is paid the effective inputs and
  every deposit, no more. Exactly when each instruction lands; and every account's own
  balance moves by what it spent, what it was paid and what happened elsewhere, only.
- **Vesting.** On every run of whole transactions and of arbitrary other activity, every
  escrow covers, in every asset, the sum over all schedules on it of what each is still
  owed; the balance is that sum plus exactly what anything but a creation ever sent
  there; per schedule, claimed + refunded + owed = total; a cancellation freezes accrual
  for good; and every stored schedule that has matured, of any kind and cancelled or not, can be
  closed by one claim, which leaves nothing; and every live cancelable one can be cancelled,
  with all that has not vested as the refund. Exactly when each of the seven instructions
  lands, and the whole state it leaves: what is stored vests by the announced terms, and
  over every run nothing of a schedule moves and no money leaves an account without the
  signature of the party it belongs to.
- **Weighted swap.** The floored series, and the whole logarithm and exponential built on
  them, stay within stated distances of every sum of their series from the code's own
  length on, `ln 2` included; so do the powers, and the payouts against the exact price
  ratio, by a distance linear in the exponent; no intermediate leaves its word, range reduction is exact, powers of fractions are fractions, and no swap pays
  more than the reserve. Exactly when the two kernels give the same verdict, which bases
  have powers below or above the true one or growing with the exponent, and which buys are
  overpaid at some weights, at some unequal weights and at equal ones, is settled for every
  input.
- **Reader.** Base58 is a bijection between 32-byte keys and the strings it accepts;
  decimal text, ASCII or in any other digits, is read exactly; and the panel's 128-bit
  accrual equals the program's on every schedule that can be stored.

## Where the code and its own text disagree

The model follows the code. Each disagreement is proved on a concrete input or a whole
family, and where a condition decides it, the condition is an if-and-only-if.

- `src/vesting.rs:84` says the parts of a cancellation always sum to the total. They do
  exactly when nothing past the amount vested at the cancellation was claimed before it
  (`Schedules.SplitSumsIff`); a claim at the end followed by a cancellation naming the
  start hands out twice the total (`Schedules.SplitCanDoubleTotal`). The vesting program
  closes this with its `last_seen` guard.
- `programs/vesting/core/src/lib.rs:900` stores a cancellation at time 0 as time 1. That
  pays out more than the escrow was given exactly when something vests in that first
  millisecond (`VestingState.CancelConservesIff`, `VestingState.CancellationAtZeroOverpays`).
  The run theorems therefore start from a block time of at least two minutes after the
  epoch, which with the cancellation window keeps time 0 out.
- `src/lib.rs:238-273` writes fields before its last checked operation. A refused trade
  leaves the curve alone exactly when it was not refused by that last write
  (`Curves.RefusedTradeIsAtomicIff`, counterexample `Curves.RefusedTradeCanMoveFields`);
  on every curve the constructor can lead to, it never is.
- `src/binfixed.rs:170` calls its power contract-identical to the decimal one. The two
  refuse together, and with the same error, exactly under the conditions of
  `Kernels.PowersRefuseTogetherIff` and `Kernels.PowersSameVerdictIff`: they differ on a zero
  base, on a zero exponent, on an equal-weight base above one, and wherever one
  logarithm still fits in its word and the other does not. Some exponent has the power one
  on the binary kernel and zero on the decimal one, and some exponent only the binary
  kernel refuses, exactly for the positive fractions below the largest (`Kernels.OppositeEndsIff`,
  `Kernels.OneRefusesIff`). The same holds of the swaps (`Kernels.SwapsSameVerdictIff`): one
  may pay nothing, or refuse, where the other pays out the whole reserve, exactly at a
  price ratio that is positive and below the largest fraction (`Kernels.SwapsOppositeIff`,
  `Kernels.OneSwapRefusesIff`).
- `src/binfixed.rs:210` casts the scaled logarithm to a signed word. From 2^127 on the cast
  turns a vanishing power into one (`BinPower.CastIsHarmlessIff`); some exponent does it to
  a base if and only if the base is strictly between zero and one (`BinPower.CastWrapsIff`).
- `src/weighted.rs:165-167` says the power is rounded down and that this rounds the payout
  down. The payout falls as the power rises (`Rounding.PayoutFallsAsThePowerRises`): the pool
  keeps the dust, whatever the reserve, exactly when the power is not below the true one
  (`Rounding.PoolKeepsTheDustIff`). At some positive exponent the binary power is below the
  true one, and at some other above it, exactly for the bases strictly between zero and one
  (`Rounding.BinFallsBelowIff`, `Rounding.BinRisesAboveIff`); the decimal power rises above it
  for exactly those (`Rounding.DecRisesAboveIff`), and falls below it for exactly those but
  the largest fraction (`Rounding.DecFallsBelowIff`). Carried to the swap: every buy the
  binary swap prices is paid more than the exact amount at some weights
  (`Rounding.BinOverpaysAlways`). The decimal swap overpays a buy at some weights exactly when
  its price ratio is below the largest fraction, or is that fraction and a condition on the
  reserves holds (`Rounding.DecOverpaysIff`); at some unequal weights exactly when the
  ratio is positive and below the largest fraction (`Rounding.DecOverpaysUnequalIff`); and at
  equal weights, on both swaps, exactly when the payout at the floored ratio is above the
  share of the exact one (`Rounding.EqualWeightsOverpayIff`).
- `tests/weighted.rs:77` and `tests/binfixed.rs:94` want the power monotone in the exponent.
  On both kernels it is not, for exactly the bases strictly between zero and one
  (`Rounding.BinGrowsIff`, `Rounding.DecGrowsIff`).
- `src/vesting.rs:143` truncates the number of tranches before it compares it with the limit
  of 64. The limit holds exactly for lists shorter than 2^32
  (`Schedules.ConstructorsAreWellFormedIff`, `Schedules.LongListIsAccepted`). Such a list is
  64 GiB and needs a 64-bit `usize`: on a 32-bit guest no list is long enough and the
  truncation does nothing.
- `src/binfixed.rs:146` says the estimate can land one step either side. It is never low,
  so only the first correction is ever taken (`BinFixed.ReciprocalEstimate`).

## Assumptions of the run theorems

- A transaction lands whole or not at all: plan, validity window, effects and chained
  transfers. The model applies the effects before the transfers; the two touch
  different shards, so the order does not show in what lands.
- Only this program writes its own shards; block time does not go back; an escrow account
  never signs, and another program may credit it but not debit it. Any other account may
  change in any way between transactions.
- SHA-256 and program-derived addresses are arbitrary functions: nothing is assumed of
  them, not even injectivity, and a schedule account may coincide with an escrow account.
  Only `VestingProgram.AccountsToldApart` speaks of functions without collisions.
- For the sale: the holding is an account of this program, different from the two payees;
  anyone may deposit into it, before the sale or during it, and no other program debits it.

## Model

| member | source | states |
|---|---|---|
| WideInt.WideMul | src/lib.rs:79-92 | the two words are the whole 256-bit product; the dropped bits of the middle shift are carried by the high word |
| WideInt.WideDiv | src/lib.rs:97-131 | exact quotient and remainder of a 256-bit number, refused exactly for a zero divisor and for a quotient past 128 bits |
| WideInt.ShiftAndSubtract | src/lib.rs:118-127 | the shift that loses its top bit, the carried flag and the wrapping subtraction together compute 2 rem + bit, less d when that is not below d |
| WideInt.FloorQuotient | src/lib.rs:134-137 | the specification of the floor: the unique value whose multiple of d is the last not above a b |
| WideInt.CeilQuotient | src/lib.rs:140-148 | the specification of the ceiling: the unique value whose multiple of d is the first not below a b |
| WideInt.MulDivFloor | src/lib.rs:134-137 | floor(a b / d) whenever d is not zero and the result fits, refused in every other case |
| WideInt.MulDivCeil | src/lib.rs:140-148 | ceil(a b / d) likewise, including the last unit that no longer fits |
| Curves.Create | src/lib.rs:171-184 | a curve exists exactly when the virtual token reserve is above the sale and there is virtual collateral; otherwise which error |
| Curves.BuyOutput | src/lib.rs:192-204 | the most tokens that may leave without the product falling |
| Curves.SellOutput | src/lib.rs:224-235 | the most collateral that may leave without the product falling |
| Curves.BuyQuoteIs | src/lib.rs:192-204 | a buy quote is that output, refused exactly for nothing paid, an overflowing reserve or too small a sale reserve; its own quotient and subtraction never fail |
| Curves.SellQuoteIs | src/lib.rs:224-235 | dually for a sell quote and the real collateral |
| Curves.ExactOutIsLeast | src/lib.rs:207-220 | the exact-out cost is the least payment whose output reaches q; every refusal is characterised, an overflow meaning that no payment would do |
| Curves.ExactOutRoundTrip | src/lib.rs:192-220 | paying the cost delivers at least q or is refused by the sale reserve only, and one unit less delivers less than q |
| Curves.Curve.Buy | src/lib.rs:238-254 | the four fields and the result after a buy, with the field-by-field writes before the checks that may still fail |
| Curves.Curve.Sell | src/lib.rs:257-273 | the same for a sell |
| Curves.RefusedTradeIsAtomicIff | src/lib.rs:238-273 | on any curve a refused trade changes nothing if and only if its last write did not overflow |
| Curves.RefusedTradeCanMoveFields | src/lib.rs:238-254 | a hand-built curve on which a refused buy moves three fields |
| Curves.TradeKeeps | src/lib.rs:238-273 | one trade keeps vt above the sale reserve, vc at least the real collateral, both offsets, and the product from below; a refused one keeps everything |
| Curves.TradeIs | src/lib.rs:192-273 | on a reachable curve a trade exchanges exactly the most that keeps the product, for at least the trader's minimum, or is refused for the one reason that applies and changes nothing |
| Curves.RunKeeps | src/lib.rs:171-273 | along every run the product never falls and both offsets are constant |
| Curves.ReachableRefusalIsAtomic | src/lib.rs:171-273 | on every reachable curve a refused call leaves all four fields alone |
| Curves.BoughtTokensCanBeSold | src/lib.rs:224-273 | on every run a sale within the opening size is priced, so that only the seller's own minimum can refuse it |
| Curves.NoProfitableCycle | src/lib.rs:192-273 | a run that ends with no more of one coin ends with no less of the other |
| Curves.FlowsBalance | src/lib.rs:238-273 | the virtual reserves move by exactly what accepted trades exchanged |
| Curves.RealReservesAre | src/lib.rs:171-273 | on every run from a new curve the real collateral is what buyers paid less what sellers were paid, and the sale reserve what is left of the sale |
| Curves.SplittingABuyNeverGains | src/lib.rs:192-254 | however a net payment is split, and whatever is sold in between, it brings at most what one buy of it brings |
| Curves.SplittingASellNeverGains | src/lib.rs:224-273 | the same for a net sale |
| Fees.FeeOnIs | src/fees.rs:98-110 | the fee is the least that covers the rate, never above the amount, never refused |
| Fees.BuyFeeIs | src/fees.rs:118-129 | at every rate a ceiling admits a buy is refused exactly when the rate leaves less than one unit of it, which under the per-swap cap means nothing or one unit; otherwise fee and rest make up the input |
| Fees.OutputFeeSplits | src/fees.rs:133-147 | the fee on an output or a closing balance is the least that covers the rate, it and the rest make up the whole, never refused |
| Fees.FeeConfig.New | src/fees.rs:64-72 | a switch exists exactly for a rate under a ceiling of at most one; otherwise which error |
| Fees.FeeConfig.SetRate | src/fees.rs:89-95 | a rate moves exactly when the new one is not above the ceiling, which never moves |
| Sales.BuyBalances | programs/curve/src/bin/antumbra_curve.rs:341-463 | an accepted buy keeps the books: input to the holding, fee accrued, the rest as real collateral |
| Sales.StepBalances | programs/curve/src/bin/antumbra_curve.rs:200-463 | every instruction, landed or refused, keeps the books |
| Sales.SaleConserves | programs/curve/src/bin/antumbra_curve.rs:139-463 | on every run, whoever deposits: paid + deposited = swept + paid out + held, the holding covers the unswept fees, exactly when a sweep and a withdrawal are refused, and a withdrawal brings the creator's total to the effective inputs and the deposits, so without deposits to the effective inputs exactly once |
| Sales.SaleIsACurveRun | programs/curve/src/bin/antumbra_curve.rs:341-463 | the reserves of a sale are those of a curve run of buys, so the curve theorems hold of every sale |
| SaleAccounts.NewSaleIs | programs/curve/src/bin/antumbra_curve.rs:139-184 | every field of a new sale, and exactly when there is one |
| SaleAccounts.BuyLandsIff | programs/curve/src/bin/antumbra_curve.rs:341-463 | exactly when a buy lands; the buyer then pays the whole input, the holding receives it, the sale moves by the fee and the tokens due, and no other account moves |
| SaleAccounts.SweepLandsIff | programs/curve/src/bin/antumbra_curve.rs:200-251 | exactly when a sweep lands; the fee treasury fixed at creation is then paid all that was accrued |
| SaleAccounts.WithdrawLandsIff | programs/curve/src/bin/antumbra_curve.rs:265-323 | exactly when a withdrawal lands; the creator is then paid the holding less the unswept fees |
| SaleAccounts.EveryBalanceIs | programs/curve/src/bin/antumbra_curve.rs:200-463 | over every run each account's balance is what it was, and what happened to it elsewhere, less what it spent; the fee treasury's rose by what was swept, the creator's by what was paid out |
| SaleAccounts.SalePaysItsParties | programs/curve/src/bin/antumbra_curve.rs:139-463 | from the opening of a sale, with the ledger of the conservation law |
| Sales.SaleProgram.Buy | programs/curve/src/bin/antumbra_curve.rs:341-463 | the sale, both accounts and the refusal after a buy, in the order the program checks and writes |
| Sales.SaleProgram.Collect | programs/curve/src/bin/antumbra_curve.rs:200-251 | the same for a sweep, from the ownership of both accounts on |
| Sales.SaleProgram.Close | programs/curve/src/bin/antumbra_curve.rs:265-323 | the same for a withdrawal |
| Bits.PopcountSet | programs/vesting/core/src/lib.rs:930-948 | setting a clear bit raises the count by exactly one |
| Bits.PopcountBound | programs/vesting/core/src/lib.rs:402-411 | a word below 2^n counts at most n, and n only when all ones |
| Schedules.CheckedTotal | src/vesting.rs:142-166 | a tranche list is summed exactly when every tranche is positive and the sum fits |
| Schedules.BuildMilestone | src/vesting.rs:142-166 | the loop that stops at the first bad tranche builds the position of the whole list |
| Schedules.ConstructorsAreWellFormedIff | src/vesting.rs:97-166 | every constructor yields a well-formed position, the milestone one if and only if its list is shorter than 2^32 |
| Schedules.LongListIsAccepted | src/vesting.rs:142-145 | 2^32 tranches of one unit pass the limit of 64 |
| Schedules.InsideSpan | src/vesting.rs:296-308 | strictly inside a span the division never fails and never passes the total |
| Schedules.LinearMono | src/vesting.rs:296-308 | floored accrual is monotone in time and bounded by the total |
| Schedules.LinearIs | src/vesting.rs:296-308 | the accrual at every time: nothing, the floored share of the span, or all |
| Schedules.NewPositionVests | src/vesting.rs:97-195 | exactly when each constructor accepts, and what the new position vests at every time by its own terms |
| Schedules.VestedMono | src/vesting.rs:173-195 | for all three kinds vesting never goes back or past the total, is complete at the end, and stands still from a cancellation on |
| Schedules.CallsKeepWellFormed | src/vesting.rs:211-274 | every call keeps a position well formed; a refused one keeps it as it was |
| Schedules.ClaimsAndSignalsAre | src/vesting.rs:201-243 | a claim pays what has vested and was not claimed, refused exactly when that is nothing; exactly which signals are accepted, and each refusal |
| Schedules.AfterSucceeds | src/vesting.rs:211-274 | over any list of calls the terms stay, claims only grow, and nothing undoes a lock or moves a cancellation |
| Schedules.CancelsOnce | src/vesting.rs:257-274 | a cancellation is refused exactly on a locked or cancelled position, and stays refused whatever is called afterwards |
| Schedules.CancelledAndLocked | src/vesting.rs:245-274 | an accepted cancellation and a lock each rule out every later one |
| Schedules.SignalUnlocksItsTranche | src/vesting.rs:225-241 | a signal unlocks exactly its own tranche, once |
| Schedules.MilestonesComplete | src/vesting.rs:173-195 | with every tranche signalled everything has vested |
| Schedules.MaxVestedIsMax | src/vesting.rs:173-221 | the largest vested amount among a list of times |
| Schedules.ClaimsReachTheMax | src/vesting.rs:201-221 | claims at any times in any order bring the claimed amount up to the largest vested one and change nothing else |
| Schedules.ClaimsSumExactly | src/vesting.rs:201-221 | on a fresh position the payments sum to that maximum, and to the total with no dust once one time reaches the end |
| Schedules.SplitSumsIff | src/vesting.rs:257-286 | the three parts sum to the total if and only if nothing past the amount vested at the cancellation was claimed |
| Schedules.SplitCanDoubleTotal | src/vesting.rs:257-286 | on every linear position a claim at the end and then a cancellation naming the start split off twice the total |
| Schedules.CancelThenClaim | src/vesting.rs:201-286 | a cancellation no earlier claim went past splits the total in three, and any later claims pay at most, and eventually exactly, the beneficiary's part |
| Schedules.FrozenAt | src/vesting.rs:173-195 | after a cancellation vesting stops at its instant |
| Schedules.Schedule.ClaimNow | src/vesting.rs:211-221 | the position and the payment after a claim |
| Schedules.Schedule.SignalMilestone | src/vesting.rs:225-241 | the position and the unlocked tranche after a signal |
| Schedules.Schedule.MakeNonCancelable | src/vesting.rs:245-251 | the flag goes down, once |
| Schedules.Schedule.CancelNow | src/vesting.rs:257-274 | the position and the three parts after a cancellation |
| VestingProgram.CreateNext | programs/vesting/core/src/lib.rs:649-656 | the row check and the state of one schedule of a batch, or the refusal |
| VestingProgram.CreateAll | programs/vesting/core/src/lib.rs:649-657 | one pass over the schedule rows yields one creation per beneficiary, in order, stopping at the first refusal |
| VestingProgram.PlanBatch | programs/vesting/core/src/lib.rs:626-658 | the checks of a batch in their order, those creations, one transfer of total times n, and the announcement |
| VestingProgram.AnnouncementTellsThePlan | programs/vesting/core/src/lib.rs:596-801 | what is announced is what is planned: the accounts of the schedules written, the terms, amounts, times, beneficiaries and index written to them, and every transfer's asset, two ends and amount |
| VestingProgram.Shard.Take | programs/vesting/core/src/lib.rs:827-950 | the stored bytes and the refusal after one effect on any bytes, empty, decodable or not, in the order the program checks and writes; a refused effect leaves them alone |
| VestingProgram.OnlyEmptyIsCreated | programs/vesting/core/src/lib.rs:808-835 | a creation is accepted on an empty shard only, and nothing else on a shard that holds no schedule |
| VestingProgram.RebuildIs | programs/vesting/core/src/lib.rs:413-426 | a stored schedule is rebuilt exactly when its terms are those of an acceptable time schedule, with the same terms, claims and cancellation; otherwise one refusal |
| VestingProgram.IndexWordBytes | programs/vesting/core/src/lib.rs:301-308 | the word of a place in a batch is its four bytes from the least significant one, and nothing else |
| VestingProgram.IndexWordInjective | programs/vesting/core/src/lib.rs:301-308 | different places have different words |
| VestingProgram.HoldingWordSpells | programs/vesting/core/src/lib.rs:295-299 | the escrow's word is "holding" |
| VestingProgram.AccountsToldApart | programs/vesting/core/src/lib.rs:289-317 | where nothing collides, escrows and schedules are told apart by their ids and places, and no escrow is a schedule of a batch |
| VestingState.VestedSucceeds | programs/vesting/core/src/lib.rs:402-437 | on every schedule a creation lets through, accrual is never refused |
| VestingState.AccruedIs | programs/vesting/core/src/lib.rs:402-437 | accrual in the schedule's own terms at every time, up to a cancellation: nothing before the cliff, the floored share of the span, all from the end on, or the share of signalled tranches |
| VestingState.AccruedMono | programs/vesting/core/src/lib.rs:431-443 | accrual is monotone, bounded, frozen by a cancellation and complete at the end, for all three kinds |
| VestingState.GoodBounds | programs/vesting/core/src/lib.rs:402-455 | claimed <= vested(last_seen) <= vested(now) <= total, before and after cancellation |
| VestingState.NewStateIsGood | programs/vesting/core/src/lib.rs:467-510 | every state a creation accepts starts good and owes exactly its total; its terms are those of `VestingCreation` |
| VestingState.ClaimKeeps | programs/vesting/core/src/lib.rs:836-863 | an accepted claim, even at a time before last_seen, pays out of what is owed and exactly lowers it |
| VestingState.CancelKeeps | programs/vesting/core/src/lib.rs:864-903 | an accepted cancellation at a positive time refunds exactly what it stops owing |
| VestingState.CancelConservesIff | programs/vesting/core/src/lib.rs:864-903 | an accepted cancellation conserves what is owed if and only if its time is positive or nothing vests in the first millisecond |
| VestingState.CancellationAtZeroOverpays | programs/vesting/core/src/lib.rs:896-903 | a schedule of 10 whose cancellation at time 0 refunds 10 and still owes 5 |
| VestingState.HandleKeeps | programs/vesting/core/src/lib.rs:904-948 | the other effects never touch what was claimed or is owed |
| VestingState.SignalKeeps | programs/vesting/core/src/lib.rs:930-948 | an accepted signal raises the count by one within the tranches, vested = floor(total count / tranches), never less than before |
| VestingState.MilestonesAllOrLess | programs/vesting/core/src/lib.rs:402-411 | a milestone schedule is fully vested if and only if every tranche is signalled |
| VestingState.EffectEvolves | programs/vesting/core/src/lib.rs:827-950 | what no accepted effect changes: the terms, a cancellation once made, the signals after it, and the flags only one way |
| VestingState.FrozenForGood | programs/vesting/core/src/lib.rs:431-437 | nothing a cancelled schedule can become accrues differently |
| VestingChain.LiabilitiesSplit | programs/vesting/core/src/lib.rs:291-317 | the sum of what a shared escrow owes does not depend on the order of its schedules |
| VestingChain.LiabilitiesUpdate | programs/vesting/core/src/lib.rs:827-950 | writing one shard moves that sum by the difference it makes |
| VestingChain.LiabilitiesCoverEach | programs/vesting/core/src/lib.rs:440-455 | what one schedule is owed is at most what its escrow owes |
| VestingSolvency.BatchCreates | programs/vesting/core/src/lib.rs:649-657 | a batch plans n good schedules of the same total on the same escrow |
| VestingSolvency.CreationsExtend | programs/vesting/core/src/lib.rs:829-835 | creations write only absent shards, even when ids repeat within one batch |
| VestingSolvency.CreationsOwe | programs/vesting/core/src/lib.rs:626-657 | n creations add n times the total to what their escrow owes |
| VestingSolvency.CreationTxKeeps | programs/vesting/core/src/lib.rs:600-669 | a landed creation or batch keeps every escrow solvent |
| VestingSolvency.ClaimTxKeeps | programs/vesting/core/src/lib.rs:670-705 | a landed claim moves one schedule, pays exactly what it stops owing and keeps every escrow solvent, wherever it pays to |
| VestingSolvency.CancelTxKeeps | programs/vesting/core/src/lib.rs:706-750 | a landed cancellation names a time in (now - 120000, now], refunds exactly what it stops owing and keeps every escrow solvent |
| VestingSolvency.AcceptedPayoutIsCovered | programs/vesting/core/src/lib.rs:580-592 | every claim or refund that plan, window and apply accept is authorised and covered; only an overflowing recipient can stop it |
| VestingSolvency.HandleTxKeeps | programs/vesting/core/src/lib.rs:751-800 | the instructions that move no money keep every escrow solvent |
| VestingSolvency.StepKeepsSolvent | programs/vesting/core/src/lib.rs:596-950 | every event of the chain keeps every escrow solvent |
| VestingSolvency.EscrowsAlwaysCover | programs/vesting/core/src/lib.rs:594-950 | on every run from genesis every escrow covers, in every asset, the sum of what all its schedules are owed, and every schedule keeps its bounds |
| VestingSurplus.PayoutSurplus | programs/vesting/core/src/lib.rs:580-592 | a payout takes from its escrow exactly what it stops owing; wherever it lands is surplus |
| VestingSurplus.StepSurplus | programs/vesting/core/src/lib.rs:596-950 | every event changes an escrow's surplus by exactly the foreign money it brings |
| VestingSurplus.EscrowBalanceIs | programs/vesting/core/src/lib.rs:594-950 | on every run an escrow's balance is what it owes plus what it held at genesis plus what anything but a creation sent it, and equals what it owes if and only if that is nothing |
| VestingHistory.StepAccounts | programs/vesting/core/src/lib.rs:670-750 | per schedule and event, claimed and owed move by exactly what was paid and refunded |
| VestingHistory.ScheduleConserves | programs/vesting/core/src/lib.rs:670-750 | over every run, per schedule: paid + refunded + owed = total |
| VestingHistory.CancellationFreezesForGood | programs/vesting/core/src/lib.rs:706-750 | a landed cancellation freezes accrual at a time at most two minutes back on every continuation of the run, and its refund is what had not vested |
| VestingHistory.PlannedClaimLands | programs/vesting/core/src/lib.rs:670-705 | a claim with the client's rows, in its window and accepted by `apply`, lands exactly when its transfer does, and writes exactly that shard |
| VestingHistory.MaturedIsVested | programs/vesting/core/src/lib.rs:402-437 | once a time schedule has ended, every tranche is signalled, or a cancellation is reached, all that was not claimed is owed and has vested |
| VestingHistory.FinalClaimCloses | programs/vesting/core/src/lib.rs:670-705 | then, for every kind, one claim of all that is owed is accepted and leaves nothing owed |
| VestingHistory.EscrowHasASeed | programs/vesting/core/src/lib.rs:296-317 | some seed a claim can name derives the escrow of every stored schedule |
| VestingVerdicts.ClaimLandsIff | programs/vesting/core/src/lib.rs:670-863 | exactly when a claim lands: rows, signed handle of the beneficiary, escrow, asset, time and amount; and the whole chain it leaves |
| VestingVerdicts.CancelLandsIff | programs/vesting/core/src/lib.rs:706-903 | the same for a cancellation: signed handle of the authority, the refund account of the terms, the window, and the exact refund |
| VestingVerdicts.HandleLandsIff | programs/vesting/core/src/lib.rs:751-958 | the same for a lock, a transfer of the beneficiary and a signal, whose bit and no other is set |
| VestingCreation.NewStateIsAcceptedIff | programs/vesting/core/src/lib.rs:467-510 | exactly which terms are accepted, each refusal, and every field stored, authorities defaulting to the creator |
| VestingCreation.StoredVestsByItsTerms | programs/vesting/core/src/lib.rs:402-510 | what is stored vests by the announced terms at every time |
| VestingCreation.CreateLandsIff | programs/vesting/core/src/lib.rs:600-625 | exactly when a creation lands, with the schedule it stores and the transfer it makes |
| VestingCreation.BatchLandsIff | programs/vesting/core/src/lib.rs:626-669 | the same for a batch: every row its own schedule, all free and distinct, funded together, and nothing else changed |
| VestingCreation.CreatedVestsByItsTerms | programs/vesting/core/src/lib.rs:600-625 | a landed creation vests by the announced terms |
| VestingCreation.BatchVestsByItsTerms | programs/vesting/core/src/lib.rs:626-669 | so does every schedule of a landed batch, for its own beneficiary |
| VestingRights.LandedWasSigned | programs/vesting/core/src/lib.rs:548-958 | whoever moved a stored schedule signed: the beneficiary for a claim or a transfer, the cancel authority, the creator for a lock, the milestone authority for a signal |
| VestingRights.RunNeedsSignatures | programs/vesting/core/src/lib.rs:548-958 | over every run what a party alone may move stands still while it does not sign |
| VestingRights.DebitsAreSigned | programs/vesting/core/src/lib.rs:596-750 | no landed transaction takes from an account that did not sign it, but for an escrow drawn on by the party of one of its schedules |
| VestingRights.NoLaterCancellation | programs/vesting/core/src/lib.rs:864-911 | a locked or cancelled schedule refuses every cancellation on every continuation of the run |
| VestingRights.OnlyTheNewHolderClaims | programs/vesting/core/src/lib.rs:912-929 | after a transfer exactly the new holder may claim, and exactly what the old one could have |
| VestingClosing.StepStaysNameable | programs/vesting/core/src/lib.rs:519-525 | every event keeps every stored schedule at a schedule account and naming an asset |
| VestingClosing.EveryMaturedScheduleCloses | programs/vesting/core/src/lib.rs:670-705 | on every run, for every stored schedule that has matured, of any kind and cancelled or not, there are a schedule id, a seed and an asset whose claim of all that is owed is accepted, unless the destination would overflow, and leaves nothing owed |
| VestingCancelling.EveryLiveScheduleCancels | programs/vesting/core/src/lib.rs:706-903 | on every run, for every stored schedule that is cancelable and not cancelled, and every time of the last two minutes not before its last claim, there are a schedule id, a seed and an asset whose cancellation, refunding all that has not vested, is refused only if its window ends past the last block time or the refund overflows, which is decided exactly |
| VestingCancelling.BlockTimeIsInTime | programs/vesting/core/src/lib.rs:864-903 | the block time is always such a time |
| Panel.MulDivFloor | app/src/vesting_chain.cpp:210 | floor(a n / d) for n below d, no intermediate past 128 bits |
| Panel.PanelAgrees | app/src/vesting_chain.cpp:213-224 | the panel's accrual equals the program's on every schedule with accepted terms, at every time |
| Panel.PanelAgreesOnEveryRun | app/src/vesting_chain.cpp:213-224 | hence on every schedule stored on any run |
| Panel.Dec | app/src/vesting_chain.cpp:115-120 | the shortest numeral of a number |
| Panel.PlainIsUnique | app/src/vesting_chain.cpp:115-120 | there is only one, so writing what was read from it gives it back |
| Panel.ParseDec | app/src/vesting_chain.cpp:122-133 | accepts exactly the numerals below 2^128, with their value, whatever characters count as digits |
| Panel.AsciiIsItself | app/src/vesting_chain.cpp:126-127 | plain text is read as it stands |
| Panel.WrapIsSeen | app/src/vesting_chain.cpp:127-128 | dividing the possibly wrapped sum back detects exactly the overflows |
| Base58.MulAdd | app/src/vesting_chain.cpp:90-92 | one carry pass and the appended carry turn the digits of n into those of n mul + c, with no leading zero and every product inside an int |
| Base58.LettersSpellRuns | app/src/vesting_chain.cpp:20 | the letters of the digits are the 58 characters of the alphabet, in order |
| Base58.CanonicalIsDigits | app/src/vesting_chain.cpp:87-113 | a number has one writing without a leading zero |
| Base58.RecodeRoundTrip | app/src/vesting_chain.cpp:87-113 | changing base and back, leading zeros counted apart, is the identity on every string of digits |
| Base58.RecodedLength | app/src/vesting_chain.cpp:101 | 32 bytes never need more than the 44 characters the reader allows |
| Base58.Encode | app/src/vesting_chain.cpp:87-98 | writes the key's recoded digits in the alphabet |
| Base58.Magnitude | app/src/vesting_chain.cpp:102-109 | the digits of all characters in base 256, exactly when all are letters |
| Base58.Decode | app/src/vesting_chain.cpp:100-113 | reads exactly the strings of at most 44 letters that stand for 32 bytes |
| Base58.KeyOfText | app/src/vesting_chain.cpp:87-113 | reading what was written gives every 32-byte key back |
| Base58.TextOfKey | app/src/vesting_chain.cpp:87-113 | writing what was read gives every accepted string back |
| Base58.TextMeans | app/src/vesting_chain.cpp:87-98 | the text's letters, each worth its place in the alphabet, make the key's own number, with one '1' in front for every leading zero byte |
| Base58.ReadIff | app/src/vesting_chain.cpp:87-113 | exactly the writings of 32-byte keys are read |
| Base58.StrChr | app/src/vesting_chain.cpp:104-105 | the place of a character in the alphabet, which is the only one |
| Horner.NestedIsPolynomial | src/binfixed.rs:123-126 | the nested form is the polynomial |
| Horner.ErrorBound | src/binfixed.rs:158-161 | one floor and one rounded coefficient per step: the error contracts to a fixed bound however many terms |
| BinFixed.AtanhTable | src/binfixed.rs:59-73 | each of the 13 constants is within half a unit of 2^62 / (2i + 1) |
| BinFixed.ExpTable | src/binfixed.rs:77-99 | each of the 21 constants is within half a unit of 2^62 (-1)^i / i! |
| BinFixed.Normalised | src/binfixed.rs:111-116 | doubling ends in [edge, 2 edge) with x times the power of two counted |
| BinFixed.RatioBound | src/binfixed.rs:119-121 | on the whole window the ratio is below 0.1718 and has the sign of ln m |
| BinFixed.LnMantissaBound | src/binfixed.rs:119-128 | ln m is within ln 2 of zero and not positive up to 1; the last product stays inside i128 |
| BinFixed.LnMantissaNegative | src/binfixed.rs:119-128 | from two units below one on, ln m is negative |
| BinFixed.NegLogBound | src/binfixed.rs:107-130 | for every argument in (0, 1] the mantissa lands in the window within 62 doublings and the logarithm is not negative |
| BinFixed.NegLn62 | src/binfixed.rs:107-130 | the loop form computes it with every intermediate inside i128, refused exactly outside (0, 1] |
| BinFixed.AtanhPassIsClose | src/binfixed.rs:122-126 | the floored 13-term pass is within 1.55 units of 2^62 times the exact rational polynomial |
| BinFixed.ReciprocalEstimate | src/binfixed.rs:144-154 | the multiply by a rounded 1/ln2 lands on the exact quotient or one above, never below |
| BinFixed.ExpPass | src/binfixed.rs:158-164 | the accumulators alternate in sign and never exceed their coefficient, so the negative clamp is never reached |
| BinFixed.ExpNegBound | src/binfixed.rs:137-166 | exp(-y) is between 0 and 1 for every signed word |
| BinFixed.ExpNeg62 | src/binfixed.rs:137-166 | estimate plus correction find exactly y div ln2 and y mod ln2; every intermediate is an i128 |
| BinFixed.ExpPassIsClose | src/binfixed.rs:158-161 | the floored 21-term pass is within 4.9 units of 2^62 times the exact Taylor polynomial |
| BinError.NestedLipschitz | src/binfixed.rs:123-126 | nearby arguments give nearby values of a polynomial with coefficients in [0, 1] |
| BinError.RatioIsClose | src/binfixed.rs:119-121 | the truncated ratio is within one unit of the exact one |
| BinError.LnMantissaIsClose | src/binfixed.rs:119-128 | on the whole window the mantissa's logarithm is within 4.2 units of 2^62 times the exact 13-term series of 2 atanh at the exact ratio |
| BinError.ExpNegIsClose | src/binfixed.rs:137-166 | for every argument below the cut-off the exponential is within one unit and 4.9 shifted units of the exact 21-term series, shifted |
| BinError.LongerSum | src/binfixed.rs:59-99 | how much all the terms past the n-th can add to a polynomial with small coefficients, however many they are |
| BinError.LnMantissaIsCloseToAll | src/binfixed.rs:119-128 | the mantissa's logarithm is within 4.3 units of every sum of 13 or more terms of the series |
| BinPower.NegLog18PositiveIff | src/binfixed.rs:196-208 | the logarithm of a base in (0, 1] is positive if and only if the base is below one |
| BinPower.MantissaBound | src/binfixed.rs:196-207 | normalising before the change of scale hands the logarithm a mantissa of full precision, never above 1 |
| BinPower.RunPowFrac | src/binfixed.rs:174-214 | the code computes the modelled power with every intermediate inside its word |
| BinPower.PowFracIs | src/binfixed.rs:174-214 | a power of a fraction is a fraction, and the refusals are exactly these |
| BinPower.CastIsHarmlessIff | src/binfixed.rs:210 | past the zero threshold the power is zero if and only if the scaled logarithm is below 2^127 |
| BinPower.CastWrapsIff | src/binfixed.rs:210 | some integer exponent makes the cast wrap if and only if the base is strictly between zero and one |
| BinPower.CastCanWrap | src/binfixed.rs:210 | every such base has an integer exponent above one whose power comes out as one |
| BinPower.WeightedBuyIs | src/binfixed.rs:224-248 | never more than the reserve; past the input checks refused exactly where the power is, so neither later refusal is reached |
| Weighted.AtanhSum | src/weighted.rs:110-123 | the 24-term loop stays inside u128 and no checked operation in it fails |
| Weighted.NegLogBound | src/weighted.rs:79-127 | mantissa, shift count and series argument of every fraction are inside their ranges |
| Weighted.NegLogNearShifts | src/weighted.rs:79-127 | the logarithm is the shift count times ln 2 and between 2z and 4z more, z at most one third |
| Weighted.NegLn | src/weighted.rs:79-127 | the logarithm, refused exactly for zero and above one |
| Weighted.ExpStateBound | src/weighted.rs:130-161 | after every term the alternating sum is between 0 and 1, so the positive part covers the negative |
| Weighted.ZeroStays | src/weighted.rs:147-151 | once a term is zero the rest add nothing, so stopping early changes nothing |
| Weighted.ExpNeg | src/weighted.rs:130-161 | the exponential, between 0 and 1, with no check failing |
| Weighted.RunPowFrac | src/weighted.rs:168-186 | the code computes the modelled power |
| Weighted.PowFracIs | src/weighted.rs:168-186 | a power of a fraction is a fraction, a base above one has only its first power, and the refusals are exactly these |
| Weighted.WeightedBuyIs | src/weighted.rs:192-216 | never more than the reserve; refused past the input checks exactly where the power is, here also when the price ratio rounds to zero |
| Kernels.PowersRefuseTogetherIff | src/binfixed.rs:168-214 | the two powers refuse together if and only if one of six conditions on base and exponent holds |
| Kernels.PowersSameVerdictIff | src/binfixed.rs:168-214 | they give the same verdict, error for error, if and only if one of those holds but a zero exponent above one; what each answers on the families decided before any logarithm, the same on one and at equal weights |
| Kernels.LargestFraction | src/weighted.rs:168-186 | the decimal power of the largest fraction is one at every exponent but the first |
| Kernels.OppositeEndsIff | src/binfixed.rs:208-211 | some exponent has the power one on the binary kernel and zero on the decimal one if and only if the base is positive and below the largest fraction |
| Kernels.OneRefusesIff | src/binfixed.rs:208-210 | some exponent is refused by the binary kernel only, with the decimal power zero, if and only if the same |
| Kernels.SwapsSameVerdictIff | src/binfixed.rs:216-248 | the two swaps give the same verdict if and only if an input check fails, the weights are equal, or the price ratio is positive and the overflow guards agree |
| Kernels.SwapsOppositeIff | src/binfixed.rs:216-248 | on a priced buy some weights make the binary swap pay nothing and the decimal one the whole reserve if and only if the price ratio is positive and below the largest fraction |
| Kernels.OneSwapRefusesIff | src/binfixed.rs:216-248 | some weights make the binary swap refuse what the decimal one pays whole if and only if the same |
| LogScales.Compare | src/binfixed.rs:196-208 | at every fraction but the largest both logarithms are positive and neither is more than a small factor of the other |
| LogScales.DecimalPositiveIff | src/weighted.rs:79-127 | the decimal logarithm of a fraction is positive if and only if it is not the largest |
| Rounding.PayoutFallsAsThePowerRises | src/weighted.rs:163-167 | rounding the power down rounds the payout up |
| Rounding.PoolKeepsTheDustIff | src/weighted.rs:163-167 | on either kernel, at any base and positive exponent, the pool keeps the dust of every reserve if and only if the power is not below the true one |
| Rounding.BinFallsBelowIff | src/weighted.rs:163-167 | the binary power is below the exact one at some positive exponent if and only if the base is strictly between zero and one |
| Rounding.BinRisesAboveIff | src/weighted.rs:163-167 | it is above the exact one at some positive exponent if and only if the same |
| Rounding.DecFallsBelowIff | src/weighted.rs:163-186 | the decimal power is below the exact one at some positive exponent if and only if the base is positive and below the largest fraction |
| Rounding.DecRisesAboveIff | src/weighted.rs:163-186 | it is above the exact one at some positive exponent if and only if the base is strictly between zero and one |
| Rounding.BinOverpaysAlways | src/binfixed.rs:216-248 | every priced buy has an integer ratio of weights at which, for every pair of weights with that ratio, the binary swap pays more than the exact formula |
| Rounding.EqualWeightsOverpayIff | src/weighted.rs:177-216 | at equal weights both swaps pay the share the floored price ratio leaves, and overpay a buy if and only if that is above the share of the exact one |
| Rounding.DecOverpaysUnequalIff | src/weighted.rs:188-216 | the decimal swap overpays a priced buy at some unequal weights, and at every pair with some integer ratio above one, if and only if the price ratio is positive and below the largest fraction |
| Rounding.DecOverpaysIff | src/weighted.rs:177-216 | it overpays it at some weights at all if and only if the price ratio is below the largest fraction, or the whole units of the reserve are above the exact amount |
| Rounding.BinGrowsIff | src/binfixed.rs:168-214 | some exponent has a larger binary power than a smaller one, and some has a larger one than the first, if and only if the base is strictly between zero and one |
| Rounding.DecGrowsIff | src/weighted.rs:163-186 | some exponent has a larger decimal power than a smaller one if and only if the base is strictly between zero and one |
| Rounding.ShortSeries | src/weighted.rs:147-161 | the exponential in closed form wherever the series ends after its fourth term |
| DecError.ExpPassIsClose | src/weighted.rs:142-158 | the 24 floored terms are within 79.2 units of 1e18 times the exact series |
| DecError.ExpIsClose | src/weighted.rs:130-161 | for every positive argument the exponential is within one unit and 79.2 shifted units of the exact 24-term series of the remainder, shifted |
| LongSeries.StoredLn2 | src/binfixed.rs:45-46 | both stored ln 2 are within half a unit of every sum of 21 or more terms of 2 atanh(1/3) |
| LongSeries.BinLogIsClose | src/binfixed.rs:107-130 | for every argument in (0, 1] the logarithm is within 4.3 units, and half a unit a shift, of k ln 2 less the mantissa's series, both of any length from the code's own on |
| LongSeries.DecLogIsClose | src/weighted.rs:79-127 | for every fraction the decimal one is within 77 units, and half a unit a shift, of the same |
| LongSeries.BinExpIsClose | src/binfixed.rs:137-166 | for every argument below the cut-off the exponential is within one unit and 4.91 units, six more a shift, shifted, of every sum of 21 or more terms of the Taylor series at what is left after the multiples of ln 2, itself a series of any length |
| LongSeries.DecExpIsClose | src/weighted.rs:130-161 | the same of the decimal exponential below its cut-off of 128 shifts, with 79.3 units and 24 or more terms |
| ExpHalves.ExpOfMoves | src/binfixed.rs:137-166 | the exact exponential by series and halving is continuous wherever its multiples of ln 2 change, since every sum is next to one half at ln 2 |
| PowerError.BinLogOfBase | src/binfixed.rs:196-208 | for every base in (0, 1] the logarithm is within 10.6 units, and half a unit a doubling, of the exact one, the floor between the two scales included |
| PowerError.DecLogOfBase | src/weighted.rs:79-127 | for every fraction the decimal one is within 77 units, and half a unit a doubling |
| PowerValue.BinPowerIsClose | src/binfixed.rs:174-214 | every binary power of a proper fraction below the zero cut-off is within 4 + 2.61 (1 + k/2 + (10.6 + s/2) num/den) units of 1e18 times the exact exponential of num/den times the exact logarithm |
| PowerValue.DecPowerIsClose | src/weighted.rs:168-186 | every decimal power that is not refused, at every denominator, is within 82 + 12 (1 + k/2 + (77 + s/2) num/den) units of the same |
| PayoutValue.BinPayoutIsClose | src/binfixed.rs:224-248 | the binary payout at unequal weights is within one unit and the reserve's share of those distances of the exact payout at the exact price ratio |
| PayoutValue.DecPayoutIsClose | src/weighted.rs:192-216 | so is every decimal payout that is not refused |
| Weighted.WeightIs | src/weighted.rs:223-242 | the two ends outside a proper span, the floored share of the gap from the start toward the end inside, refused on any other span |
| Weighted.WeightMovesOneWay | src/weighted.rs:223-242 | on a proper span the weight always exists, stays between its ends and moves one way only |

## Left out

- PowerValue.BinPowerIsClose: the real logarithm and exponential are not defined here; what is compared with is every sum of their series from some length on, at the code's own number of doublings. From the cut-off on `BinPower.CastIsHarmlessIff` says what the power is.
- Rounding.DecOverpaysUnequalIff: speaks of some unequal weights; at one given pair the side the rounding falls on turns on single units and is not decided.
- Panel.ParseDec: which characters are digits, and of what value below ten, is a parameter; Qt's table of them is not modelled.
- Base58.Decode: a failed reading is None, where the code returns an empty byte array; the alphabet test is on characters below 128.
- VestingProgram.PlanBatch: the byte encoding of instructions and announcements, and the selectors of the latter, are not modelled.
- VestingChain.LiabilitiesUpdate: on the chain a shard of this program is a schedule or absent, as only this program writes it; the Borsh layout is not modelled.
- VestingSolvency.AcceptedPayoutIsCovered: the token program is a transfer that debits and credits or fails; its mint, metadata and account rules are not modelled.
- Sales.SaleConserves: sale ids, address derivation, signatures and a sale that fails to decode are not modelled; one sale and its holding are taken as found.
- Spot prices, `is_closed`, `is_fully_claimed`, `CAP_AT_CLOSE`, the creation fee and the other one-line getters: they would only add easy members.
- `programs/lbp`: its one hard part is the power, modelled through `src/binfixed.rs`.
- `replayActivity`, JSON-RPC, explorer reads, the QML host and settings in `app/`: input, output and heuristics.
- `cli/`, `scripts/`, `zkvm/`, `executor-tests/`: signing, deployment and measurement.
- Gas, cycles, proving, shielding and error texts.
