/** Protocol fees, src/fees.rs: rates in millionths, rounded up against the payer,
    under a ceiling no later call can raise. */
module Fees {
  import opened Arithmetic
  import opened WideInt
  import opened Words
  import opened Wrappers

  const RATE_ONE := 1_000_000
  const CAP_PER_SWAP := 10_000

  type Rate = r: int | 0 <= r <= RATE_ONE

  /** `FeeConfig::new`, as the rate it accepts; `FeeConfig.New` is proved against it. */
  function NewRate(rate: u128, cap: u128): Result<Rate, CurveError> {
    if cap > RATE_ONE then Err(ZeroAmount)
    else if rate > cap then Err(ExceedsRealCollateral)
    else Ok(rate)
  }

  function FeeOn(rate: Rate, amount: u128): Result<u128, CurveError> {
    if rate == 0 then Ok(0)
    else
      match CeilQuotient(amount, rate, RATE_ONE)
      case Err(e) => Err(e)
      case Ok(fee) => if fee > amount then Err(ExceedsRealCollateral) else Ok(fee)
  }

  /** Under any ceiling the fee is the least that covers the rate; it never
      exceeds the amount, so it is never refused. */
  lemma FeeOnIs(rate: Rate, amount: u128)
    ensures FeeOn(rate, amount) == Ok(CeilDiv(amount * rate, RATE_ONE))
    ensures 0 <= CeilDiv(amount * rate, RATE_ONE) <= amount
  {
    MulMono(0, rate, amount);
    MulMono(rate, RATE_ONE, amount);
    CeilAdjoint(amount * rate, RATE_ONE, amount);
    CeilAdjoint(amount * rate, RATE_ONE, -1);
    if rate == 0 {
      assert amount * rate == 0;
    }
  }

  /** (fee, what reaches the curve), the fee off the input before pricing. */
  function BuyFee(rate: Rate, cIn: u128): Result<(u128, u128), CurveError> {
    if cIn == 0 then Err(ZeroAmount)
    else
      match FeeOn(rate, cIn)
      case Err(e) => Err(e)
      case Ok(fee) =>
        if fee > cIn then Err(Overflow)
        else if cIn - fee == 0 then Err(ZeroAmount)
        else Ok((fee, cIn - fee))
  }

  /** At any rate a ceiling admits, a buy is refused exactly when what the rate
      leaves of it is less than one unit; otherwise the two parts make up the
      input and something positive reaches the curve. Under the per-swap cap that
      means a buy of nothing, or of one unit at a positive rate. */
  lemma BuyFeeIs(rate: Rate, cIn: u128)
    ensures BuyFee(rate, cIn) == Err(ZeroAmount) <==> cIn * (RATE_ONE - rate) < RATE_ONE
    ensures BuyFee(rate, cIn).Err? ==> BuyFee(rate, cIn) == Err(ZeroAmount)
    ensures rate <= CAP_PER_SWAP ==> (BuyFee(rate, cIn).Err? <==> cIn == 0 || (cIn == 1 && rate > 0))
    ensures BuyFee(rate, cIn).Ok? ==>
              var (fee, effective) := BuyFee(rate, cIn).value;
              && fee + effective == cIn && effective > 0
              && fee * RATE_ONE >= cIn * rate > (fee - 1) * RATE_ONE
  {
    FeeOnIs(rate, cIn);
    CeilAdjoint(cIn * rate, RATE_ONE, cIn - 1);
    assert cIn * (RATE_ONE - rate) == cIn * RATE_ONE - cIn * rate;
    if rate <= CAP_PER_SWAP {
      MulMono(rate, CAP_PER_SWAP, cIn);
    }
  }

  /** (fee, paid to the seller), the fee off the output after pricing; the same
      split is taken off the balance at close. Never refused. */
  function OutputFee(rate: Rate, raw: u128): (r: Result<(u128, u128), CurveError>)
  {
    match FeeOn(rate, raw)
    case Err(e) => Err(e)
    case Ok(fee) => if fee > raw then Err(Overflow) else Ok((fee, raw - fee))
  }

  lemma OutputFeeSplits(rate: Rate, raw: u128)
    ensures OutputFee(rate, raw).Ok?
    ensures var (fee, rest) := OutputFee(rate, raw).value;
            && fee + rest == raw
            && fee * RATE_ONE >= raw * rate > (fee - 1) * RATE_ONE
  {
    FeeOnIs(rate, raw);
    CeilAdjoint(raw * rate, RATE_ONE, CeilDiv(raw * rate, RATE_ONE));
    CeilAdjoint(raw * rate, RATE_ONE, CeilDiv(raw * rate, RATE_ONE) - 1);
  }

  /** The switch: a rate under a ceiling fixed at creation. */
  class FeeConfig {
    const cap: u128
    var rate: u128

    predicate Valid()
      reads this
    {
      rate <= cap <= RATE_ONE
    }

    constructor Of(rate: u128, cap: u128)
      requires rate <= cap <= RATE_ONE
      ensures Valid() && this.rate == rate && this.cap == cap
    {
      this.rate, this.cap := rate, cap;
    }

    /** `FeeConfig::new`: refuses a degenerate ceiling and a rate above it. */
    static method New(rate: u128, cap: u128) returns (res: Result<FeeConfig, CurveError>)
      ensures res.Ok? <==> NewRate(rate, cap).Ok?
      ensures res.Err? ==> NewRate(rate, cap) == Err(res.error)
      ensures cap > RATE_ONE ==> res == Err(ZeroAmount)
      ensures rate > cap && cap <= RATE_ONE ==> res == Err(ExceedsRealCollateral)
      ensures rate <= cap <= RATE_ONE ==>
                && res.Ok? && fresh(res.value)
                && res.value.Valid() && res.value.rate == rate && res.value.cap == cap
    {
      if cap > RATE_ONE {
        return Err(ZeroAmount);
      }
      if rate > cap {
        return Err(ExceedsRealCollateral);
      }
      var config := new FeeConfig.Of(rate, cap);
      return Ok(config);
    }

    method SetRate(next: u128) returns (res: Result<(), CurveError>)
      requires Valid()
      modifies this
      ensures Valid()
      ensures res.Ok? <==> next <= cap
      ensures rate == if next <= cap then next else old(rate)
    {
      if next > cap {
        return Err(ExceedsRealCollateral);
      }
      rate := next;
      return Ok(());
    }
  }
}
