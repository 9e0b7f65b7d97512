/** The bonding-curve program of programs/curve: one sale, its holding, the buyers
    and the two payees, moved by whole instructions that land or roll back. */
module Sales {
  import opened Words
  import opened Wrappers
  import opened Fees
  import Curves

  type AccountId = Bytes32

  datatype Refusal =
    | BadSale | NotAnchored | PricingRefused | Closed | BuyerUnowned | Insufficient
    | TreasuryOverflow | TreasuryMismatch | FeeTreasuryMismatch | FeeRateAboveCap

  /** Which program may debit an account. */
  datatype Owner = ThisProgram | TransferProgram | OtherProgram

  datatype Account = Account(balance: u128, owner: Owner)

  type Book = map<AccountId, Account>

  datatype Sale = Sale(
    vt: u128, vc: u128, saleReserve: u128, realCollateral: u128, seedReserve: u128,
    creator: AccountId, treasury: AccountId, feeTreasury: AccountId,
    feeRate: u128, feesAccrued: u128)

  /** A stored sale and who owns the account it is stored in, the holding account
      derived for it, and everybody's accounts. */
  datatype World = World(sale: Sale, saleOwner: Owner, holding: AccountId, book: Book)

  function Get(b: Book, who: AccountId): Account {
    if who in b then b[who] else Account(0, OtherProgram)
  }

  function SetBalance(b: Book, who: AccountId, balance: u128): Book {
    b[who := Get(b, who).(balance := balance)]
  }

  function ReservesOf(s: Sale): Curves.Reserves {
    Curves.Reserves(s.vt, s.vc, s.saleReserve, s.realCollateral)
  }

  // ------------------------------------------------------------ instructions

  function CreateSale(holding: AccountId, creator: AccountId, book: Book,
                      vt: u128, vc: u128, saleReserve: u128, seedReserve: u128,
                      feeTreasury: AccountId, feeRate: u128): Result<World, Refusal>
  {
    if Curves.Create(vt, vc, saleReserve).Err? then Err(BadSale)
    else if NewRate(feeRate, CAP_PER_SWAP).Err? then Err(FeeRateAboveCap)
    else Ok(World(Sale(vt, vc, saleReserve, 0, seedReserve, creator, holding, feeTreasury, feeRate, 0), ThisProgram, holding, book))
  }

  /** Prices a buy on what the fee leaves, records both, and moves the whole input
      from the buyer to the holding. */
  function ExecuteBuy(w: World, buyer: AccountId, collateralIn: u128, minTokensOut: u128): Result<World, Refusal> {
    var s := w.sale;
    if w.saleOwner != ThisProgram then Err(NotAnchored)
    else if s.saleReserve == 0 then Err(Closed)
    else if NewRate(s.feeRate, CAP_PER_SWAP).Err? then Err(FeeRateAboveCap)
    else
      match BuyFee(s.feeRate, collateralIn)
      case Err(_) => Err(PricingRefused)
      case Ok((fee, effective)) =>
        var (r, out) := Curves.Step(ReservesOf(s), Curves.Buy(effective, minTokensOut));
        if out.Err? then Err(PricingRefused)
        else if s.treasury != w.holding then Err(TreasuryMismatch)
        else if Get(w.book, w.holding).owner != ThisProgram then Err(TreasuryMismatch)
        else if Get(w.book, buyer).owner != TransferProgram then Err(BuyerUnowned)
        else if Get(w.book, buyer).balance < collateralIn then Err(Insufficient)
        else if Get(w.book, w.holding).balance + collateralIn >= TWO_POW_128 then Err(TreasuryOverflow)
        else if s.feesAccrued + fee >= TWO_POW_128 then Err(TreasuryOverflow)
        else
          var s' := s.(feesAccrued := s.feesAccrued + fee, vt := r.vt, vc := r.vc,
                       saleReserve := r.saleReserve, realCollateral := r.realCollateral);
          var debited := SetBalance(w.book, buyer, Get(w.book, buyer).balance - collateralIn);
          Ok(w.(sale := s', book := SetBalance(debited, w.holding, Get(w.book, w.holding).balance + collateralIn)))
  }

  /** Whether the sale and its holding both belong to this program. */
  predicate Anchored(w: World) {
    w.saleOwner == ThisProgram && Get(w.book, w.holding).owner == ThisProgram
  }

  /** Sweeps everything accrued to the fee treasury fixed at creation. */
  function CollectFees(w: World, feeTreasury: AccountId): Result<World, Refusal> {
    var s := w.sale;
    var amount := s.feesAccrued;
    if !Anchored(w) then Err(NotAnchored)
    else if s.feeTreasury != feeTreasury then Err(FeeTreasuryMismatch)
    else if amount == 0 then Err(PricingRefused)
    else if Get(w.book, w.holding).balance < amount then Err(TreasuryOverflow)
    else if Get(w.book, feeTreasury).balance + amount >= TWO_POW_128 then Err(TreasuryOverflow)
    else
      var debited := SetBalance(w.book, w.holding, Get(w.book, w.holding).balance - amount);
      Ok(w.(sale := s.(feesAccrued := 0),
            book := SetBalance(debited, feeTreasury, Get(w.book, feeTreasury).balance + amount)))
  }

  /** What a withdrawal would pay. */
  function Payable(w: World): int {
    Get(w.book, w.holding).balance - w.sale.feesAccrued
  }

  /** Pays the creator the holding less the unswept fees, once every token is sold. */
  function Withdraw(w: World, creator: AccountId): Result<World, Refusal> {
    var s := w.sale;
    if !Anchored(w) then Err(NotAnchored)
    else if s.creator != creator then Err(TreasuryMismatch)
    else if s.saleReserve != 0 then Err(Closed)
    else if Payable(w) < 0 then Err(TreasuryOverflow)
    else if Payable(w) == 0 then Err(PricingRefused)
    else if Get(w.book, creator).balance + Payable(w) >= TWO_POW_128 then Err(TreasuryOverflow)
    else
      var debited := SetBalance(w.book, w.holding, s.feesAccrued);
      Ok(w.(book := SetBalance(debited, creator, Get(w.book, creator).balance + Payable(w))))
  }

  datatype Event =
    | Buy(buyer: AccountId, collateralIn: u128, minTokensOut: u128)
    | Sweep(feeTreasury: AccountId)
    | PayOut(creator: AccountId)
    | Elsewhere(book: Book)

  function Land(w: World, r: Result<World, Refusal>): World {
    match r case Ok(w') => w' case Err(_) => w
  }

  function Step(w: World, e: Event): World {
    match e
    case Buy(buyer, cIn, minOut) => Land(w, ExecuteBuy(w, buyer, cIn, minOut))
    case Sweep(t) => Land(w, CollectFees(w, t))
    case PayOut(c) => Land(w, Withdraw(w, c))
    case Elsewhere(b) => w.(book := b)
  }

  /** No other program debits the holding or takes it over; anyone may deposit
      into it, and every other account is free. */
  predicate Allowed(w: World, e: Event) {
    e.Elsewhere? ==>
      && Get(e.book, w.holding).owner == Get(w.book, w.holding).owner
      && Get(e.book, w.holding).balance >= Get(w.book, w.holding).balance
  }

  function Run(w: World, events: seq<Event>): World
    decreases |events|
  {
    if events == [] then w else Run(Step(w, events[0]), events[1..])
  }

  predicate ValidRun(w: World, events: seq<Event>)
    decreases |events|
  {
    events == [] || (Allowed(w, events[0]) && ValidRun(Step(w, events[0]), events[1..]))
  }

  // ------------------------------------------------------------------ ledger

  /** What accepted instructions moved: paid by buyers, priced after the fee,
      swept to the fee treasury, paid to the creator; and what others deposited. */
  datatype Ledger = Ledger(paid: nat, effective: nat, swept: nat, payout: nat, deposits: nat)

  function Post(w: World, e: Event, l: Ledger): Ledger {
    match e
    case Buy(buyer, cIn, minOut) =>
      if ExecuteBuy(w, buyer, cIn, minOut).Ok? && NewRate(w.sale.feeRate, CAP_PER_SWAP).Ok? && BuyFee(w.sale.feeRate, cIn).Ok? then
        l.(paid := l.paid + cIn, effective := l.effective + BuyFee(w.sale.feeRate, cIn).value.1)
      else l
    case Sweep(t) => if CollectFees(w, t).Ok? then l.(swept := l.swept + w.sale.feesAccrued) else l
    case PayOut(c) => if Withdraw(w, c).Ok? then l.(payout := l.payout + Payable(w)) else l
    case Elsewhere(b) =>
      var before, after := Get(w.book, w.holding).balance, Get(b, w.holding).balance;
      if before <= after then l.(deposits := l.deposits + (after - before)) else l
  }

  function Books(w: World, events: seq<Event>, l: Ledger): Ledger
    decreases |events|
  {
    if events == [] then l else Books(Step(w, events[0]), events[1..], Post(w, events[0], l))
  }

  /** The accounts are distinct, and the books agree with the sale: everything paid
      or deposited was swept, paid out or is in the holding; the fees not yet swept
      are covered by it; and the creator was paid nothing before the close. */
  predicate Balanced(w: World, l: Ledger) {
    && w.sale.treasury == w.holding
    && w.holding != w.sale.feeTreasury && w.holding != w.sale.creator
    && Anchored(w)
    && w.sale.feeRate <= CAP_PER_SWAP
    && Curves.Sound(ReservesOf(w.sale))
    && w.sale.realCollateral == l.effective
    && Get(w.book, w.holding).balance == l.paid + l.deposits - l.swept - l.payout
    && w.sale.feesAccrued == l.paid - l.effective - l.swept
    && l.payout <= l.effective + l.deposits
    && (l.payout == 0 || w.sale.saleReserve == 0)
    && (l.deposits == 0 ==> l.payout == 0 || l.payout == l.effective)
  }

  lemma BuyBalances(w: World, l: Ledger, buyer: AccountId, cIn: u128, minOut: u128)
    requires Balanced(w, l) && ExecuteBuy(w, buyer, cIn, minOut).Ok?
    ensures Balanced(ExecuteBuy(w, buyer, cIn, minOut).value, Post(w, Buy(buyer, cIn, minOut), l))
  {
    BuyFeeIs(w.sale.feeRate, cIn);
    Curves.TradeKeeps(ReservesOf(w.sale), Curves.Buy(BuyFee(w.sale.feeRate, cIn).value.1, minOut));
  }

  lemma StepBalances(w: World, l: Ledger, e: Event)
    requires Balanced(w, l) && Allowed(w, e)
    ensures Balanced(Step(w, e), Post(w, e, l))
  {
    if e.Buy? && ExecuteBuy(w, e.buyer, e.collateralIn, e.minTokensOut).Ok? {
      BuyBalances(w, l, e.buyer, e.collateralIn, e.minTokensOut);
    }
  }

  lemma {:induction false} RunBalances(w: World, l: Ledger, events: seq<Event>)
    requires Balanced(w, l) && ValidRun(w, events)
    ensures Balanced(Run(w, events), Books(w, events, l))
    decreases |events|
  {
    if events != [] {
      StepBalances(w, l, events[0]);
      RunBalances(Step(w, events[0]), Post(w, events[0], l), events[1..]);
    }
  }

  /** Conservation on every run of a sale, whatever the interleaving and whoever
      deposits: what came in is what was swept, paid out and is held; a sweep never
      finds the holding short and takes fees only; and after the close a withdrawal
      brings the creator's total to the effective inputs and every deposit, so
      exactly to the effective inputs when there was none. */
  lemma SaleConserves(holding: AccountId, creator: AccountId, book: Book, vt: u128, vc: u128, d: u128, seed: u128,
                      feeTreasury: AccountId, feeRate: u128, events: seq<Event>)
    requires CreateSale(holding, creator, book, vt, vc, d, seed, feeTreasury, feeRate).Ok?
    requires holding != feeTreasury && holding != creator && Get(book, holding).owner == ThisProgram
    requires ValidRun(CreateSale(holding, creator, book, vt, vc, d, seed, feeTreasury, feeRate).value, events)
    ensures var w0 := CreateSale(holding, creator, book, vt, vc, d, seed, feeTreasury, feeRate).value;
            var w, l := Run(w0, events), Books(w0, events, Ledger(0, 0, 0, 0, Get(book, holding).balance));
            && l.paid + l.deposits == l.swept + l.payout + Get(w.book, holding).balance
            && 0 <= w.sale.feesAccrued == l.paid - l.effective - l.swept <= Get(w.book, holding).balance
            && (CollectFees(w, feeTreasury).Err? <==>
                  w.sale.feesAccrued == 0 || Get(w.book, feeTreasury).balance + w.sale.feesAccrued >= TWO_POW_128)
            && Payable(w) == l.effective + l.deposits - l.payout >= 0
            && (l.payout > 0 ==> w.sale.saleReserve == 0)
            && (l.deposits == 0 ==> l.payout in {0, l.effective})
            && (Withdraw(w, creator).Ok? <==>
                  w.sale.saleReserve == 0 && Payable(w) > 0 && Get(w.book, creator).balance + Payable(w) < TWO_POW_128)
            && (Withdraw(w, creator).Ok? ==>
                  && Post(w, PayOut(creator), l).payout == l.effective + l.deposits
                  && Withdraw(Withdraw(w, creator).value, creator) == Err(PricingRefused))
  {
    var w0 := CreateSale(holding, creator, book, vt, vc, d, seed, feeTreasury, feeRate).value;
    RunBalances(w0, Ledger(0, 0, 0, 0, Get(book, holding).balance), events);
    PartiesStay(w0, events);
  }

  lemma {:induction false} PartiesStay(w: World, events: seq<Event>)
    ensures var w' := Run(w, events);
            && w'.holding == w.holding && w'.sale.creator == w.sale.creator && w'.sale.feeTreasury == w.sale.feeTreasury
    decreases |events|
  {
    if events != [] {
      PartiesStay(Step(w, events[0]), events[1..]);
    }
  }

  /** The reserves of a sale are those of a curve moved by buys alone, so every
      theorem about curve runs holds of every sale. */
  lemma {:induction false} SaleIsACurveRun(w: World, events: seq<Event>) returns (ts: seq<Curves.Trade>)
    ensures ReservesOf(Run(w, events).sale) == Curves.Run(ReservesOf(w.sale), ts)
    ensures forall i :: 0 <= i < |ts| ==> ts[i].Buy?
    decreases |events|
  {
    if events == [] {
      ts := [];
    } else {
      var w1 := Step(w, events[0]);
      ts := SaleIsACurveRun(w1, events[1..]);
      if ReservesOf(w1.sale) != ReservesOf(w.sale) {
        var e := events[0];
        var trade := Curves.Buy(BuyFee(w.sale.feeRate, e.collateralIn).value.1, e.minTokensOut);
        assert Curves.Step(ReservesOf(w.sale), trade).0 == ReservesOf(w1.sale);
        assert ([trade] + ts)[1..] == ts;
        ts := [trade] + ts;
      }
    }
  }

  // --------------------------------------------------------------- the class

  /** The program's accounts as it runs: decode, mutate, write back. */
  class SaleProgram {
    const holding: AccountId
    const saleOwner: Owner
    var sale: Sale
    var book: Book

    ghost function View(): World
      reads this
    {
      World(sale, saleOwner, holding, book)
    }

    constructor (w: World)
      ensures View() == w
    {
      sale, saleOwner, holding, book := w.sale, w.saleOwner, w.holding, w.book;
    }

    method Buy(buyer: AccountId, collateralIn: u128, minTokensOut: u128) returns (res: Result<(), Refusal>)
      modifies this
      ensures View() == Land(old(View()), ExecuteBuy(old(View()), buyer, collateralIn, minTokensOut))
      ensures res.Ok? <==> ExecuteBuy(old(View()), buyer, collateralIn, minTokensOut).Ok?
      ensures res.Err? ==> res.error == ExecuteBuy(old(View()), buyer, collateralIn, minTokensOut).error
    {
      if saleOwner != ThisProgram {
        return Err(NotAnchored);
      }
      var state := sale;
      var curve := new Curves.Curve(ReservesOf(state));
      if state.saleReserve == 0 {
        return Err(Closed);
      }
      var rate := NewRate(state.feeRate, CAP_PER_SWAP);
      if rate.Err? {
        return Err(FeeRateAboveCap);
      }
      var split := BuyFee(rate.value, collateralIn);
      if split.Err? {
        return Err(PricingRefused);
      }
      var (fee, effective) := split.value;
      var out := curve.Buy(effective, minTokensOut);
      if out.Err? {
        return Err(PricingRefused);
      }
      if state.treasury != holding {
        return Err(TreasuryMismatch);
      }
      if Get(book, holding).owner != ThisProgram {
        return Err(TreasuryMismatch);
      }
      if Get(book, buyer).owner != TransferProgram {
        return Err(BuyerUnowned);
      }
      if Get(book, buyer).balance < collateralIn {
        return Err(Insufficient);
      }
      if Get(book, holding).balance + collateralIn >= TWO_POW_128 {
        return Err(TreasuryOverflow);
      }
      if state.feesAccrued + fee >= TWO_POW_128 {
        return Err(TreasuryOverflow);
      }
      state := state.(feesAccrued := state.feesAccrued + fee);
      state := state.(vt := curve.vt, vc := curve.vc);
      state := state.(saleReserve := curve.saleReserve, realCollateral := curve.realCollateral);
      sale := state;
      var before := Get(book, holding).balance;
      book := SetBalance(book, buyer, Get(book, buyer).balance - collateralIn);
      book := SetBalance(book, holding, before + collateralIn);
      return Ok(());
    }

    method Collect(feeTreasury: AccountId) returns (res: Result<(), Refusal>)
      modifies this
      ensures View() == Land(old(View()), CollectFees(old(View()), feeTreasury))
      ensures res.Ok? <==> CollectFees(old(View()), feeTreasury).Ok?
      ensures res.Err? ==> res.error == CollectFees(old(View()), feeTreasury).error
    {
      if saleOwner != ThisProgram || Get(book, holding).owner != ThisProgram {
        return Err(NotAnchored);
      }
      var state := sale;
      if state.feeTreasury != feeTreasury {
        return Err(FeeTreasuryMismatch);
      }
      var amount := state.feesAccrued;
      if amount == 0 {
        return Err(PricingRefused);
      }
      if Get(book, holding).balance < amount {
        return Err(TreasuryOverflow);
      }
      if Get(book, feeTreasury).balance + amount >= TWO_POW_128 {
        return Err(TreasuryOverflow);
      }
      var payee := Get(book, feeTreasury).balance;
      book := SetBalance(book, holding, Get(book, holding).balance - amount);
      book := SetBalance(book, feeTreasury, payee + amount);
      sale := state.(feesAccrued := 0);
      return Ok(());
    }

    method Close(creator: AccountId) returns (res: Result<(), Refusal>)
      modifies this
      ensures View() == Land(old(View()), Withdraw(old(View()), creator))
      ensures res.Ok? <==> Withdraw(old(View()), creator).Ok?
      ensures res.Err? ==> res.error == Withdraw(old(View()), creator).error
    {
      if saleOwner != ThisProgram || Get(book, holding).owner != ThisProgram {
        return Err(NotAnchored);
      }
      if sale.creator != creator {
        return Err(TreasuryMismatch);
      }
      if sale.saleReserve != 0 {
        return Err(Closed);
      }
      if Get(book, holding).balance < sale.feesAccrued {
        return Err(TreasuryOverflow);
      }
      var payable := Get(book, holding).balance - sale.feesAccrued;
      if payable == 0 {
        return Err(PricingRefused);
      }
      if Get(book, creator).balance + payable >= TWO_POW_128 {
        return Err(TreasuryOverflow);
      }
      var payee := Get(book, creator).balance;
      book := SetBalance(book, holding, Get(book, holding).balance - payable);
      book := SetBalance(book, creator, payee + payable);
      return Ok(());
    }
  }
}
