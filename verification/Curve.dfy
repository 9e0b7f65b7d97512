/** The constant-product bonding curve of src/lib.rs.

    `Reserves` is the value of a curve and `Trade` one call on it; the class at
    the end updates its four fields in place, one checked operation after the
    other, and is proved against them. */
module Curves {
  import opened Arithmetic
  import opened WideInt
  import opened Words
  import opened Wrappers

  datatype Reserves = Reserves(vt: u128, vc: u128, saleReserve: u128, realCollateral: u128)

  datatype Trade =
    | Buy(cIn: u128, minTokensOut: u128)
    | Sell(tIn: u128, minCollateralOut: u128)

  type Outcome = Result<u128, CurveError>

  // ------------------------------------------------------------------ quotes

  /** `Curve::new`: refuses empty virtual reserves and a sale that reaches the virtual token reserve. */
  function Create(vt: u128, vc: u128, saleReserve: u128): (r: Result<Reserves, CurveError>)
    ensures r.Ok? <==> vt > saleReserve && vc > 0
    ensures r.Err? ==> r.error == if vt > 0 && vc > 0 then VirtualTokenReserveTooSmall else ZeroAmount
  {
    if vt == 0 || vc == 0 then Err(ZeroAmount)
    else if vt <= saleReserve then Err(VirtualTokenReserveTooSmall)
    else Ok(Reserves(vt, vc, saleReserve, 0))
  }

  /** What a buy of `cIn` would return were the sale reserve unlimited: the most
      tokens that leave the product of the virtual reserves no smaller. */
  function BuyOutput(r: Reserves, cIn: int): (out: int)
    requires cIn > 0
    ensures (r.vt - out) * (r.vc + cIn) >= r.vt * r.vc > (r.vt - out - 1) * (r.vc + cIn)
  {
    r.vt - CeilDiv(r.vt * r.vc, r.vc + cIn)
  }

  /** Dually for a sale of `tIn` tokens with unlimited collateral. */
  function SellOutput(r: Reserves, tIn: int): (out: int)
    requires tIn > 0
    ensures (r.vc - out) * (r.vt + tIn) >= r.vt * r.vc > (r.vc - out - 1) * (r.vt + tIn)
  {
    r.vc - CeilDiv(r.vc * r.vt, r.vt + tIn)
  }

  /** The quotient of a product by a denominator that already exceeds one factor. */
  lemma CeilBelow(a: nat, b: nat, d: nat)
    requires b <= d && d > 0
    ensures 0 <= CeilDiv(a * b, d) <= a
  {
    MulMono(b, d, a);
    CeilAdjoint(a * b, d, a);
    CeilAdjoint(a * b, d, -1);
  }

  function QuoteBuy(r: Reserves, cIn: u128): Outcome
  {
    if cIn == 0 then Err(ZeroAmount)
    else if r.vc + cIn >= TWO_POW_128 then Err(Overflow)
    else
      var remaining :- CeilQuotient(r.vt, r.vc, r.vc + cIn);
      if remaining > r.vt then Err(Overflow)
      else
        var out := r.vt - remaining;
        if out > r.saleReserve then Err(ExceedsSaleReserve) else Ok(out)
  }

  function QuoteSell(r: Reserves, tIn: u128): Outcome
  {
    if tIn == 0 then Err(ZeroAmount)
    else if r.vt + tIn >= TWO_POW_128 then Err(Overflow)
    else
      var remaining :- CeilQuotient(r.vc, r.vt, r.vt + tIn);
      if remaining > r.vc then Err(Overflow)
      else
        var out := r.vc - remaining;
        if out > r.realCollateral then Err(ExceedsRealCollateral) else Ok(out)
  }

  /** A buy is refused for a zero input, an overflowing reserve or an output
      beyond the sale reserve, and for nothing else: the quotient and the
      subtraction behind it cannot fail. */
  lemma BuyQuoteIs(r: Reserves, cIn: u128)
    ensures QuoteBuy(r, cIn)
         == if cIn == 0 then Err(ZeroAmount)
            else if r.vc + cIn >= TWO_POW_128 then Err(Overflow)
            else if BuyOutput(r, cIn) > r.saleReserve then Err(ExceedsSaleReserve)
            else Ok(BuyOutput(r, cIn))
  {
    if cIn > 0 {
      CeilBelow(r.vt, r.vc, r.vc + cIn);
    }
  }

  lemma SellQuoteIs(r: Reserves, tIn: u128)
    ensures QuoteSell(r, tIn)
         == if tIn == 0 then Err(ZeroAmount)
            else if r.vt + tIn >= TWO_POW_128 then Err(Overflow)
            else if SellOutput(r, tIn) > r.realCollateral then Err(ExceedsRealCollateral)
            else Ok(SellOutput(r, tIn))
  {
    if tIn > 0 {
      CeilBelow(r.vc, r.vt, r.vt + tIn);
    }
  }

  function QuoteBuyExactOut(r: Reserves, q: u128): (cost: Outcome)
  {
    if q == 0 then Err(ZeroAmount)
    else if q > r.saleReserve then Err(ExceedsSaleReserve)
    else if q >= r.vt then Err(QuantityAtOrAboveReserve)
    else
      var target :- CeilQuotient(r.vt, r.vc, r.vt - q);
      if target < r.vc then Err(Overflow) else Ok(target - r.vc)
  }

  /** Which payments buy at least `q`, by one product: no division left. */
  lemma BuysAtLeast(r: Reserves, cIn: int, q: int)
    requires cIn > 0
    ensures BuyOutput(r, cIn) >= q <==> r.vt * r.vc <= (r.vt - q) * (r.vc + cIn)
  {
    CeilAdjoint(r.vt * r.vc, r.vc + cIn, r.vt - q);
  }

  /** The exact-out quote is the least payment whose unrestricted output reaches
      `q`: one unit less never does. It overflows exactly when no payment the
      reserve can hold would do, and its own subtraction never fails. */
  lemma ExactOutIsLeast(r: Reserves, q: u128)
    requires r.vc > 0
    ensures var cost := QuoteBuyExactOut(r, q);
            && (q == 0 ==> cost == Err(ZeroAmount))
            && (q > r.saleReserve ==> cost == Err(ExceedsSaleReserve))
            && (0 < q <= r.saleReserve && q >= r.vt ==> cost == Err(QuantityAtOrAboveReserve))
            && (0 < q <= r.saleReserve && q < r.vt ==>
                  if cost.Ok? then
                    && cost.value > 0
                    && (forall c :: c > 0 ==> (BuyOutput(r, c) >= q <==> c >= cost.value))
                  else
                    && cost == Err(Overflow)
                    && (forall c :: 0 < c && r.vc + c < TWO_POW_128 ==> BuyOutput(r, c) < q))
  {
    if 0 < q <= r.saleReserve && q < r.vt {
      var target := CeilDiv(r.vt * r.vc, r.vt - q);
      ExactOutTarget(r.vt, r.vc, q);
      forall c | c > 0
        ensures BuyOutput(r, c) >= q <==> r.vc + c >= target
      {
        ExactOutThreshold(r, q, c);
      }
    }
  }

  lemma ExactOutThreshold(r: Reserves, q: int, c: int)
    requires c > 0 && q < r.vt
    ensures BuyOutput(r, c) >= q <==> r.vc + c >= CeilDiv(r.vt * r.vc, r.vt - q)
  {
    BuysAtLeast(r, c, q);
    CeilAdjoint(r.vt * r.vc, r.vt - q, r.vc + c);
  }

  /** Taking tokens out costs something. */
  lemma ExactOutTarget(vt: int, vc: int, q: int)
    requires vc > 0 && 0 < q < vt
    ensures CeilDiv(vt * vc, vt - q) > vc
  {
    CeilAdjoint(vt * vc, vt - q, vc);
    assert vc * (vt - q) == vt * vc - q * vc;
    MulMono(1, q, vc);
  }

  /** Paying the exact-out cost delivers at least `q`, or is refused only for
      asking more than the sale reserve holds. */
  lemma ExactOutRoundTrip(r: Reserves, q: u128)
    requires r.vc > 0 && QuoteBuyExactOut(r, q).Ok?
    ensures var cost := QuoteBuyExactOut(r, q).value;
            && (QuoteBuy(r, cost) == Err(ExceedsSaleReserve) || (QuoteBuy(r, cost).Ok? && QuoteBuy(r, cost).value >= q))
            && (cost > 1 && QuoteBuy(r, cost - 1).Ok? ==> QuoteBuy(r, cost - 1).value < q)
  {
    ExactOutIsLeast(r, q);
    var cost := QuoteBuyExactOut(r, q).value;
    BuyQuoteIs(r, cost);
    if cost > 1 {
      BuyQuoteIs(r, cost - 1);
    }
  }

  // ------------------------------------------------------------------ trades

  function Bought(r: Reserves, cIn: u128): (Reserves, Outcome)
    requires QuoteBuy(r, cIn).Ok?
  {
    var out := QuoteBuy(r, cIn).value;
    if r.realCollateral + cIn >= TWO_POW_128 then
      (Reserves(r.vt - out, r.vc + cIn, r.saleReserve - out, r.realCollateral), Err(Overflow))
    else
      (Reserves(r.vt - out, r.vc + cIn, r.saleReserve - out, r.realCollateral + cIn), Ok(out))
  }

  function Sold(r: Reserves, tIn: u128): (Reserves, Outcome)
    requires QuoteSell(r, tIn).Ok?
  {
    var out := QuoteSell(r, tIn).value;
    if r.saleReserve + tIn >= TWO_POW_128 then
      (Reserves(r.vt + tIn, r.vc - out, r.saleReserve, r.realCollateral), Err(Overflow))
    else
      (Reserves(r.vt + tIn, r.vc - out, r.saleReserve + tIn, r.realCollateral - out), Ok(out))
  }

  /** One call on any curve, reachable or not. The fields are written one by one
      before the last check, so an overflow there leaves a half-written curve. */
  function Step(r: Reserves, t: Trade): (Reserves, Outcome)
  {
    match t
    case Buy(cIn, minOut) =>
      (match QuoteBuy(r, cIn)
       case Err(e) => (r, Err(e))
       case Ok(out) => if out < minOut then (r, Err(SlippageExceeded)) else Bought(r, cIn))
    case Sell(tIn, minOut) =>
      (match QuoteSell(r, tIn)
       case Err(e) => (r, Err(e))
       case Ok(out) => if out < minOut then (r, Err(SlippageExceeded)) else Sold(r, tIn))
  }

  /** The reserve a trade adds to last, after it already wrote the others. */
  predicate LastWriteOverflows(r: Reserves, t: Trade) {
    match t
    case Buy(cIn, minOut) => QuoteBuy(r, cIn).Ok? && QuoteBuy(r, cIn).value >= minOut && r.realCollateral + cIn >= TWO_POW_128
    case Sell(tIn, minOut) => QuoteSell(r, tIn).Ok? && QuoteSell(r, tIn).value >= minOut && r.saleReserve + tIn >= TWO_POW_128
  }

  /** A refused trade leaves the curve alone exactly when it was not refused by the last write. */
  lemma RefusedTradeIsAtomicIff(r: Reserves, t: Trade)
    requires Step(r, t).1.Err?
    ensures Step(r, t).0 == r <==> !LastWriteOverflows(r, t)
  {
    match t
    case Buy(cIn, _) => BuyQuoteIs(r, cIn);
    case Sell(tIn, _) => SellQuoteIs(r, tIn);
  }

  /** A hand-built curve on which a refused buy does move three fields. */
  lemma RefusedTradeCanMoveFields()
    ensures var r := Reserves(2, 1, 1, TWO_POW_128 - 1);
            && Step(r, Buy(1, 0)).1 == Err(Overflow)
            && Step(r, Buy(1, 0)).0 == Reserves(1, 2, 0, TWO_POW_128 - 1)
  {
    var r := Reserves(2, 1, 1, TWO_POW_128 - 1);
    assert CeilDiv(2, 2) == 1;
    assert BuyOutput(r, 1) == 1;
    BuyQuoteIs(r, 1);
  }

  // -------------------------------------------------------------------- runs

  function Run(r: Reserves, ts: seq<Trade>): Reserves
    decreases |ts|
  {
    if ts == [] then r else Run(Step(r, ts[0]).0, ts[1..])
  }

  /** What the buckets owe each other on every curve `Create` can lead to. */
  predicate Sound(r: Reserves) {
    r.vt > r.saleReserve && r.vc >= r.realCollateral
  }

  /** What one trade keeps: both offsets, and the product from below. */
  predicate Follows(r: Reserves, r': Reserves) {
    && Sound(r')
    && r'.vt - r'.saleReserve == r.vt - r.saleReserve
    && r'.vc - r'.realCollateral == r.vc - r.realCollateral
    && r'.vt * r'.vc >= r.vt * r.vc
  }

  lemma TradeKeeps(r: Reserves, t: Trade)
    requires Sound(r)
    ensures Follows(r, Step(r, t).0)
    ensures !LastWriteOverflows(r, t)
    ensures Step(r, t).1.Err? ==> Step(r, t).0 == r
  {
    match t
    case Buy(cIn, _) => BuyQuoteIs(r, cIn);
    case Sell(tIn, _) => SellQuoteIs(r, tIn);
  }

  /** What any trade on a reachable curve answers and leaves behind: the most that
      keeps the product, for at least the trader's minimum, in exchange for exactly
      the payment; or the one refusal that applies, and the curve as it was. */
  lemma TradeIs(r: Reserves, t: Trade)
    requires Sound(r)
    ensures match t
            case Buy(cIn, minOut) =>
              Step(r, t) ==
              if cIn == 0 then (r, Err(ZeroAmount))
              else if r.vc + cIn >= TWO_POW_128 then (r, Err(Overflow))
              else
                var out := BuyOutput(r, cIn);
                if out > r.saleReserve then (r, Err(ExceedsSaleReserve))
                else if out < minOut then (r, Err(SlippageExceeded))
                else (Reserves(r.vt - out, r.vc + cIn, r.saleReserve - out, r.realCollateral + cIn), Ok(out))
            case Sell(tIn, minOut) =>
              Step(r, t) ==
              if tIn == 0 then (r, Err(ZeroAmount))
              else if r.vt + tIn >= TWO_POW_128 then (r, Err(Overflow))
              else
                var out := SellOutput(r, tIn);
                if out > r.realCollateral then (r, Err(ExceedsRealCollateral))
                else if out < minOut then (r, Err(SlippageExceeded))
                else (Reserves(r.vt + tIn, r.vc - out, r.saleReserve + tIn, r.realCollateral - out), Ok(out))
  {
    match t
    case Buy(cIn, _) =>
      BuyQuoteIs(r, cIn);
      if cIn > 0 {
        CeilBelow(r.vt, r.vc, r.vc + cIn);
      }
    case Sell(tIn, _) =>
      SellQuoteIs(r, tIn);
      if tIn > 0 {
        CeilBelow(r.vc, r.vt, r.vt + tIn);
      }
  }

  /** Along every run the product never falls and both offsets stay constant. */
  lemma {:induction false} RunKeeps(r: Reserves, ts: seq<Trade>)
    requires Sound(r)
    ensures Follows(r, Run(r, ts))
    decreases |ts|
  {
    if ts != [] {
      TradeKeeps(r, ts[0]);
      RunKeeps(Step(r, ts[0]).0, ts[1..]);
    }
  }

  /** A refused call on any reachable curve changes nothing. */
  lemma ReachableRefusalIsAtomic(vt: u128, vc: u128, d: u128, ts: seq<Trade>, t: Trade)
    requires Create(vt, vc, d).Ok?
    ensures var r := Run(Create(vt, vc, d).value, ts);
            Step(r, t).1.Err? ==> Step(r, t).0 == r
  {
    RunKeeps(Create(vt, vc, d).value, ts);
    TradeKeeps(Run(Create(vt, vc, d).value, ts), t);
  }

  /** What a sale within the opening size leaves behind covers the opening collateral reserve. */
  lemma OpeningReserveStays(r: Reserves, vt: int, vc: int, tIn: int)
    requires 0 < tIn && r.vt + tIn <= vt && 0 < vc && r.vt * r.vc >= vt * vc
    ensures CeilDiv(r.vc * r.vt, r.vt + tIn) >= vc
  {
    MulMono(r.vt + tIn, vt, vc);
    CeilAdjoint(r.vc * r.vt, r.vt + tIn, vc - 1);
    assert (vc - 1) * (r.vt + tIn) == vc * (r.vt + tIn) - (r.vt + tIn);
  }

  /** Tokens that were bought can always be sold back: on every run, a sale that
      does not push the reserve above its opening size is priced, so only the
      seller's own minimum can refuse it. */
  lemma BoughtTokensCanBeSold(vt: u128, vc: u128, d: u128, ts: seq<Trade>, tIn: u128, minOut: u128)
    requires Create(vt, vc, d).Ok?
    requires var r := Run(Create(vt, vc, d).value, ts); 0 < tIn && r.saleReserve + tIn <= d
    ensures var r := Run(Create(vt, vc, d).value, ts);
            var out := SellOutput(r, tIn);
            Step(r, Sell(tIn, minOut)).1 == if out < minOut then Err(SlippageExceeded) else Ok(out)
  {
    var r0 := Create(vt, vc, d).value;
    var r := Run(r0, ts);
    RunKeeps(r0, ts);
    OpeningReserveStays(r, vt, vc, tIn);
    assert SellOutput(r, tIn) <= r.realCollateral;
    SellQuoteIs(r, tIn);
    TradeKeeps(r, Sell(tIn, minOut));
  }

  /** No cycle profits, in either coin. */
  lemma NoProfitableCycle(r: Reserves, ts: seq<Trade>)
    requires Sound(r)
    ensures Run(r, ts).vt <= r.vt ==> Run(r, ts).vc >= r.vc
    ensures Run(r, ts).vc <= r.vc && r.vc > 0 ==> Run(r, ts).vt >= r.vt
  {
    RunKeeps(r, ts);
    var r' := Run(r, ts);
    if r'.vt <= r.vt {
      MulMono(r'.vt, r.vt, r'.vc);
      MulCancel(r.vc, r'.vc, r.vt);
    }
    if r'.vc <= r.vc && r.vc > 0 {
      MulMono(r'.vc, r.vc, r'.vt);
      MulCancel(r.vt, r'.vt, r.vc);
    }
  }

  // --------------------------------------------------------------- splitting

  /** What changed hands on a run, accepted trades only. */
  datatype Flow = Flow(paid: nat, tokensOut: nat, tokensIn: nat, collateralOut: nat)

  function Flows(r: Reserves, ts: seq<Trade>): Flow
    decreases |ts|
  {
    if ts == [] then Flow(0, 0, 0, 0)
    else
      var (r', res) := Step(r, ts[0]);
      var f := Flows(r', ts[1..]);
      match (ts[0], res)
      case (Buy(cIn, _), Ok(out)) => f.(paid := f.paid + cIn, tokensOut := f.tokensOut + out)
      case (Sell(tIn, _), Ok(out)) => f.(tokensIn := f.tokensIn + tIn, collateralOut := f.collateralOut + out)
      case _ => f
  }

  /** The virtual reserves move by exactly what changed hands. */
  lemma {:induction false} FlowsBalance(r: Reserves, ts: seq<Trade>)
    requires Sound(r)
    ensures Run(r, ts).vt == r.vt - Flows(r, ts).tokensOut + Flows(r, ts).tokensIn
    ensures Run(r, ts).vc == r.vc + Flows(r, ts).paid - Flows(r, ts).collateralOut
    decreases |ts|
  {
    if ts != [] {
      TradeKeeps(r, ts[0]);
      FlowsBalance(Step(r, ts[0]).0, ts[1..]);
    }
  }

  /** Sellers are paid out of what buyers paid, and tokens come out of the sale: on
      every run from a new curve both real reserves are exactly what is left. */
  lemma RealReservesAre(vt: u128, vc: u128, d: u128, ts: seq<Trade>)
    requires Create(vt, vc, d).Ok?
    ensures var r0 := Create(vt, vc, d).value; var r, f := Run(r0, ts), Flows(r0, ts);
            && r.realCollateral == f.paid - f.collateralOut
            && r.saleReserve == d - f.tokensOut + f.tokensIn
            && f.collateralOut <= f.paid && f.tokensOut <= d + f.tokensIn
            && r.vc == vc + r.realCollateral && r.vt == vt - d + r.saleReserve
  {
    var r0 := Create(vt, vc, d).value;
    FlowsBalance(r0, ts);
    RunKeeps(r0, ts);
  }

  /** One buy reaches any pair of reserves with no smaller product. */
  lemma BuyReaches(r: Reserves, r': Reserves, c: int)
    requires c > 0 && r'.vc == r.vc + c && r'.vt * r'.vc >= r.vt * r.vc
    ensures r.vt - r'.vt <= BuyOutput(r, c)
  {
    CeilAdjoint(r.vt * r.vc, r.vc + c, r'.vt);
  }

  lemma SellReaches(r: Reserves, r': Reserves, t: int)
    requires t > 0 && r'.vt == r.vt + t && r'.vt * r'.vc >= r.vt * r.vc
    ensures r.vc - r'.vc <= SellOutput(r, t)
  {
    CeilAdjoint(r.vc * r.vt, r.vt + t, r'.vc);
  }

  /** However a net payment is split, and whatever is sold in between, the net
      tokens it brings are at most the output of the one buy of that payment. */
  lemma SplittingABuyNeverGains(r: Reserves, ts: seq<Trade>)
    requires Sound(r)
    requires Flows(r, ts).paid > Flows(r, ts).collateralOut
    ensures var f := Flows(r, ts); var c := f.paid - f.collateralOut;
            && f.tokensOut - f.tokensIn <= BuyOutput(r, c)
            && r.vc + c < TWO_POW_128
            && (QuoteBuy(r, c).Ok? ==> f.tokensOut - f.tokensIn <= QuoteBuy(r, c).value)
            && (QuoteBuy(r, c).Err? ==> QuoteBuy(r, c) == Err(ExceedsSaleReserve))
  {
    FlowsBalance(r, ts);
    RunKeeps(r, ts);
    var f := Flows(r, ts);
    BuyReaches(r, Run(r, ts), f.paid - f.collateralOut);
    BuyQuoteIs(r, f.paid - f.collateralOut);
  }

  /** Likewise for the collateral a net sale of tokens brings. */
  lemma SplittingASellNeverGains(r: Reserves, ts: seq<Trade>)
    requires Sound(r)
    requires Flows(r, ts).tokensIn > Flows(r, ts).tokensOut
    ensures var f := Flows(r, ts); var t := f.tokensIn - f.tokensOut;
            && f.collateralOut - f.paid <= SellOutput(r, t)
            && r.vt + t < TWO_POW_128
            && (QuoteSell(r, t).Ok? ==> f.collateralOut - f.paid <= QuoteSell(r, t).value)
            && (QuoteSell(r, t).Err? ==> QuoteSell(r, t) == Err(ExceedsRealCollateral))
  {
    FlowsBalance(r, ts);
    RunKeeps(r, ts);
    var f := Flows(r, ts);
    SellReaches(r, Run(r, ts), f.tokensIn - f.tokensOut);
    SellQuoteIs(r, f.tokensIn - f.tokensOut);
  }

  // --------------------------------------------------------------- the class

  /** A live sale curve. The fields move one checked operation at a time. */
  class Curve {
    var vt: u128
    var vc: u128
    var saleReserve: u128
    var realCollateral: u128

    ghost function View(): Reserves
      reads this
    {
      Reserves(vt, vc, saleReserve, realCollateral)
    }

    constructor (r: Reserves)
      ensures View() == r
    {
      vt, vc, saleReserve, realCollateral := r.vt, r.vc, r.saleReserve, r.realCollateral;
    }

    method Buy(cIn: u128, minTokensOut: u128) returns (res: Outcome)
      modifies this
      ensures (View(), res) == Step(old(View()), Trade.Buy(cIn, minTokensOut))
    {
      var out :- QuoteBuy(Reserves(vt, vc, saleReserve, realCollateral), cIn);
      if out < minTokensOut {
        return Err(SlippageExceeded);
      }
      if out > vt {
        return Err(Overflow);
      }
      vt := vt - out;
      if vc + cIn >= TWO_POW_128 {
        return Err(Overflow);
      }
      vc := vc + cIn;
      if out > saleReserve {
        return Err(Overflow);
      }
      saleReserve := saleReserve - out;
      if realCollateral + cIn >= TWO_POW_128 {
        return Err(Overflow);
      }
      realCollateral := realCollateral + cIn;
      return Ok(out);
    }

    method Sell(tIn: u128, minCollateralOut: u128) returns (res: Outcome)
      modifies this
      ensures (View(), res) == Step(old(View()), Trade.Sell(tIn, minCollateralOut))
    {
      var out :- QuoteSell(Reserves(vt, vc, saleReserve, realCollateral), tIn);
      if out < minCollateralOut {
        return Err(SlippageExceeded);
      }
      if vt + tIn >= TWO_POW_128 {
        return Err(Overflow);
      }
      vt := vt + tIn;
      if out > vc {
        return Err(Overflow);
      }
      vc := vc - out;
      if saleReserve + tIn >= TWO_POW_128 {
        return Err(Overflow);
      }
      saleReserve := saleReserve + tIn;
      if out > realCollateral {
        return Err(Overflow);
      }
      realCollateral := realCollateral - out;
      return Ok(out);
    }
  }
}
