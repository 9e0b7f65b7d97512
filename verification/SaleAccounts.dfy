/** Every account of a sale, before and after each instruction and over whole runs:
    who pays, who is paid, and that nobody else's balance moves. */
module SaleAccounts {
  import opened Arithmetic
  import opened Words
  import opened Wrappers
  import opened Fees
  import opened Sales
  import Curves

  function BalanceOf(w: World, a: AccountId): u128 {
    Get(w.book, a).balance
  }

  /** The parties' accounts are distinct from the holding, and both of the program's
      accounts are its own. */
  predicate Settled(w: World) {
    Anchored(w) && w.sale.treasury == w.holding && w.holding != w.sale.feeTreasury && w.holding != w.sale.creator
  }

  // -------------------------------------------------------------- instructions

  /** The fee of a buy, rounded up, as `Fees.BuyFeeIs` has it. */
  function FeeOf(w: World, cIn: u128): int {
    CeilDiv(cIn * w.sale.feeRate, 1_000_000)
  }

  lemma BuyFeeOf(w: World, cIn: u128)
    requires w.sale.feeRate <= CAP_PER_SWAP
    ensures NewRate(w.sale.feeRate, CAP_PER_SWAP) == Ok(w.sale.feeRate)
    ensures BuyFee(w.sale.feeRate, cIn).Ok? <==> cIn > FeeOf(w, cIn)
    ensures BuyFee(w.sale.feeRate, cIn).Ok? ==> BuyFee(w.sale.feeRate, cIn).value == (FeeOf(w, cIn), cIn - FeeOf(w, cIn))
    ensures 0 <= FeeOf(w, cIn) <= cIn
  {
    FeeOnIs(w.sale.feeRate, cIn);
  }

  /** The tokens a buy is due: the most that keeps the product, on what the fee leaves. */
  function Due(w: World, cIn: u128): int
    requires cIn > FeeOf(w, cIn)
  {
    Curves.BuyOutput(ReservesOf(w.sale), cIn - FeeOf(w, cIn))
  }

  /** When the curve sells: something is left to sell, something reaches the curve, and
      what it buys is for sale and enough for the buyer. */
  predicate Sells(w: World, cIn: u128, minOut: u128) {
    && w.sale.saleReserve > 0 && cIn > FeeOf(w, cIn)
    && w.sale.vc + cIn - FeeOf(w, cIn) < TWO_POW_128
    && minOut <= Due(w, cIn) <= w.sale.saleReserve
  }

  /** The sale after a buy: the fee is accrued, the rest and the tokens move the reserves. */
  predicate SoldTo(s: Sale, s': Sale, fee: int, rest: int, out: int) {
    && (s'.vt, s'.vc, s'.saleReserve, s'.realCollateral) == (s.vt - out, s.vc + rest, s.saleReserve - out, s.realCollateral + rest)
    && s'.feesAccrued == s.feesAccrued + fee
    && s' == s.(vt := s'.vt, vc := s'.vc, saleReserve := s'.saleReserve, realCollateral := s'.realCollateral, feesAccrued := s'.feesAccrued)
  }

  /** A buy lands exactly when the curve sells it, the buyer's account is the transfer
      program's and covers it, and neither the holding nor the fees overflow; the
      buyer pays the whole input, the holding receives it, and no other account moves. */
  lemma BuyLandsIff(w: World, buyer: AccountId, cIn: u128, minOut: u128)
    requires Settled(w) && w.sale.feeRate <= CAP_PER_SWAP && Curves.Sound(ReservesOf(w.sale))
    ensures ExecuteBuy(w, buyer, cIn, minOut).Ok? <==>
              && Sells(w, cIn, minOut)
              && Get(w.book, buyer).owner == TransferProgram && BalanceOf(w, buyer) >= cIn
              && BalanceOf(w, w.holding) + cIn < TWO_POW_128
              && w.sale.feesAccrued + FeeOf(w, cIn) < TWO_POW_128
    ensures ExecuteBuy(w, buyer, cIn, minOut).Ok? ==>
              var w' := ExecuteBuy(w, buyer, cIn, minOut).value;
              && buyer != w.holding
              && SoldTo(w.sale, w'.sale, FeeOf(w, cIn), cIn - FeeOf(w, cIn), Due(w, cIn))
              && Paid(w, w', buyer, w.holding, cIn)
  {
    BuyFeeOf(w, cIn);
    if cIn > FeeOf(w, cIn) {
      Curves.TradeIs(ReservesOf(w.sale), Curves.Buy(cIn - FeeOf(w, cIn), minOut));
    }
  }

  /** One account paid another, and nothing else of anybody's moved. */
  ghost predicate Paid(w: World, w': World, from: AccountId, to: AccountId, amount: int)
  {
    && w' == w.(sale := w'.sale, book := w'.book)
    && BalanceOf(w', from) == BalanceOf(w, from) - amount
    && BalanceOf(w', to) == BalanceOf(w, to) + amount
    && (forall a :: a != from && a != to ==> Get(w'.book, a) == Get(w.book, a))
    && (forall a :: Get(w'.book, a).owner == Get(w.book, a).owner)
  }

  /** A sweep lands exactly for the fee treasury fixed at creation, when something is
      accrued, held and can be credited; the fee treasury is then paid all of it. */
  lemma SweepLandsIff(w: World, t: AccountId)
    requires Settled(w)
    ensures CollectFees(w, t).Ok? <==>
              && t == w.sale.feeTreasury && 0 < w.sale.feesAccrued <= BalanceOf(w, w.holding)
              && BalanceOf(w, t) + w.sale.feesAccrued < TWO_POW_128
    ensures CollectFees(w, t).Ok? ==>
              var w' := CollectFees(w, t).value;
              Paid(w, w', w.holding, t, w.sale.feesAccrued) && w'.sale == w.sale.(feesAccrued := 0)
  {
  }

  /** A withdrawal lands exactly for the creator, once everything is sold, when
      something beyond the fees is held and can be credited; the creator is then paid
      all of that. */
  lemma WithdrawLandsIff(w: World, creator: AccountId)
    requires Settled(w)
    ensures Withdraw(w, creator).Ok? <==>
              && creator == w.sale.creator && w.sale.saleReserve == 0 && BalanceOf(w, w.holding) > w.sale.feesAccrued
              && BalanceOf(w, creator) + BalanceOf(w, w.holding) - w.sale.feesAccrued < TWO_POW_128
    ensures Withdraw(w, creator).Ok? ==>
              var w' := Withdraw(w, creator).value;
              Paid(w, w', w.holding, creator, BalanceOf(w, w.holding) - w.sale.feesAccrued) && w'.sale == w.sale
  {
  }

  /** A new sale: every field, nothing accrued or collected, and no balance touched;
      refused exactly for a curve the constructor refuses and a rate above the cap. */
  lemma NewSaleIs(holding: AccountId, creator: AccountId, book: Book, vt: u128, vc: u128, d: u128, seed: u128, feeTreasury: AccountId, feeRate: u128)
    ensures CreateSale(holding, creator, book, vt, vc, d, seed, feeTreasury, feeRate).Ok? <==> vt > d && vc > 0 && feeRate <= 10_000
    ensures CreateSale(holding, creator, book, vt, vc, d, seed, feeTreasury, feeRate).Ok? ==>
              var w := CreateSale(holding, creator, book, vt, vc, d, seed, feeTreasury, feeRate).value;
              && w.book == book && w.holding == w.sale.treasury == holding && w.saleOwner == ThisProgram
              && (w.sale.creator, w.sale.feeTreasury, w.sale.feeRate, w.sale.seedReserve) == (creator, feeTreasury, feeRate, seed)
              && Curves.Create(vt, vc, d) == Ok(ReservesOf(w.sale)) && w.sale.feesAccrued == 0
  {
  }

  // -------------------------------------------------------------------- runs

  /** What one event makes account `a` pay for tokens. */
  function Spent(w: World, e: Event, a: AccountId): nat {
    if e.Buy? && e.buyer == a && ExecuteBuy(w, e.buyer, e.collateralIn, e.minTokensOut).Ok? then e.collateralIn else 0
  }

  /** What happened to its balance elsewhere. */
  function Moved(w: World, e: Event, a: AccountId): int {
    if e.Elsewhere? then Get(e.book, a).balance - BalanceOf(w, a) else 0
  }

  function SpentBy(w: World, events: seq<Event>, a: AccountId): nat
    decreases |events|
  {
    if events == [] then 0 else Spent(w, events[0], a) + SpentBy(Step(w, events[0]), events[1..], a)
  }

  function MovedElsewhere(w: World, events: seq<Event>, a: AccountId): int
    decreases |events|
  {
    if events == [] then 0 else Moved(w, events[0], a) + MovedElsewhere(Step(w, events[0]), events[1..], a)
  }

  /** Between two ledgers: what account `a` gained by the sale. */
  function Gained(w: World, l: Ledger, l': Ledger, a: AccountId): int {
    var swept, payout, paid := l'.swept - l.swept, l'.payout - l.payout, l'.paid - l.paid;
    (if a == w.sale.feeTreasury then swept else 0) + (if a == w.sale.creator then payout else 0)
    + (if a == w.holding then paid - swept - payout else 0)
  }

  lemma StepMoves(w: World, l: Ledger, e: Event, a: AccountId)
    requires Balanced(w, l) && Allowed(w, e)
    ensures BalanceOf(Step(w, e), a) == BalanceOf(w, a) + Moved(w, e, a) - Spent(w, e, a) + Gained(w, l, Post(w, e, l), a)
    ensures Parties(w, Step(w, e))
  {
    match e
    case Buy(buyer, cIn, minOut) =>
      BuyLandsIff(w, buyer, cIn, minOut);
      BuyFeeOf(w, cIn);
    case Sweep(t) => SweepLandsIff(w, t);
    case PayOut(c) => WithdrawLandsIff(w, c);
    case Elsewhere(_) =>
  }

  predicate Parties(w: World, w': World) {
    w'.holding == w.holding && w'.sale.creator == w.sale.creator && w'.sale.feeTreasury == w.sale.feeTreasury
  }

  /** On every run every account's balance is what it was, and what happened to it
      elsewhere, less what it paid for tokens; the fee treasury's rose by exactly what
      was swept, the creator's by exactly what was paid out, and the holding has the rest. */
  lemma {:induction false} EveryBalanceIs(w: World, l: Ledger, events: seq<Event>, a: AccountId)
    requires Balanced(w, l) && ValidRun(w, events)
    ensures BalanceOf(Run(w, events), a)
         == BalanceOf(w, a) + MovedElsewhere(w, events, a) - SpentBy(w, events, a) + Gained(w, l, Books(w, events, l), a)
    ensures Parties(w, Run(w, events))
    decreases |events|
  {
    if events != [] {
      var w1, l1 := Step(w, events[0]), Post(w, events[0], l);
      StepBalances(w, l, events[0]);
      StepMoves(w, l, events[0], a);
      EveryBalanceIs(w1, l1, events[1..], a);
    }
  }

  /** From the opening of a sale: the ledger of `SaleConserves` is the one the accounts keep. */
  lemma SalePaysItsParties(holding: AccountId, creator: AccountId, book: Book, vt: u128, vc: u128, d: u128, seed: u128,
                           feeTreasury: AccountId, feeRate: u128, events: seq<Event>, a: AccountId)
    requires CreateSale(holding, creator, book, vt, vc, d, seed, feeTreasury, feeRate).Ok?
    requires holding != feeTreasury && holding != creator && Get(book, holding).owner == ThisProgram
    requires ValidRun(CreateSale(holding, creator, book, vt, vc, d, seed, feeTreasury, feeRate).value, events)
    ensures var w0 := CreateSale(holding, creator, book, vt, vc, d, seed, feeTreasury, feeRate).value;
            var l := Books(w0, events, Ledger(0, 0, 0, 0, Get(book, holding).balance));
            BalanceOf(Run(w0, events), a) ==
            Get(book, a).balance + MovedElsewhere(w0, events, a) - SpentBy(w0, events, a)
            + (if a == feeTreasury then l.swept else 0) + (if a == creator then l.payout else 0)
            + (if a == holding then l.paid - l.swept - l.payout else 0)
  {
    var w0 := CreateSale(holding, creator, book, vt, vc, d, seed, feeTreasury, feeRate).value;
    EveryBalanceIs(w0, Ledger(0, 0, 0, 0, Get(book, holding).balance), events, a);
  }
}
