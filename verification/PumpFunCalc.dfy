/** The stand-alone PumpFun formulas, and how they agree with the bonding curve's own quotes. */
module PumpFunCalc {
  import opened MachineInts
  import opened Rounding
  import opened BondingCurve

  const FEE_BASIS_POINTS: nat := 95
  const CREATOR_FEE: nat := 30
  const DUST: nat := 100 * 1_000_000
  const LAMPORTS_IN_ONE_CENTISOL: nat := 10_000_000
  const DUST_QUOTE_LARGE: nat := 25547619 * 1_000_000
  const DUST_QUOTE_SMALL: nat := 255476 * 1_000_000

  function TotalFee(creator: bool): nat {
    FEE_BASIS_POINTS + if creator then CREATOR_FEE else 0
  }

  /** What is left of `amount` to swap once the fee rate is stripped from it. */
  function StripFee(amount: nat, feeBasisPoints: nat): nat {
    (amount * 10000) / (feeBasisPoints + 10000)
  }

  /** Tokens for SOL by the constant-product formula, capped by the real reserve. */
  function SwapTokens(virtualTokens: nat, virtualSol: nat, realTokens: nat, input: nat): nat
    requires virtualSol + input > 0
  {
    Min(Out(virtualTokens, virtualSol, input), realTokens)
  }

  /** Tokens quoted for `amount` lamports. A result at or below the dust limit is replaced by a
      constant. A failed checked operation yields no value. */
  function BuyTokenAmount(virtualTokens: u128, virtualSol: u128, realTokens: u128, creator: bool, amount: u64)
    : Option<u64>
  {
    if amount == 0 || virtualTokens == 0 then Some(0)
    else
      var input := StripFee(amount, TotalFee(creator));
      if virtualSol + input > U128_MAX || virtualSol + input == 0 || input * virtualTokens > U128_MAX then None
      else
        var tokens := SwapTokens(virtualTokens, virtualSol, realTokens, input);
        Some(CastU64(if tokens > DUST then tokens else DustQuote(amount)))
  }

  function DustQuote(amount: nat): nat {
    if amount > LAMPORTS_IN_ONE_CENTISOL then DUST_QUOTE_LARGE else DUST_QUOTE_SMALL
  }

  /** The swap output of a sale; an overflowing numerator counts as 0, an overflowing denominator as 1. */
  function SolCost(virtualTokens: u128, virtualSol: u128, amount: u64): nat
    requires amount > 0
  {
    Quotient(CheckedOr(amount * virtualSol, 0), CheckedOr(virtualTokens + amount, 1))
  }

  /** The value of a checked 128-bit operation, or the fallback when it overflows. */
  function CheckedOr(x: nat, fallback: nat): nat {
    if x > U128_MAX then fallback else x
  }

  function Quotient(a: nat, b: nat): nat
    requires b > 0
  {
    a / b
  }

  /** Lamports quoted for `amount` tokens, after fees. */
  function SellSolAmount(virtualTokens: u128, virtualSol: u128, creator: bool, amount: u64): Option<u64> {
    if amount == 0 || virtualTokens == 0 then Some(0)
    else
      var solCost := SolCost(virtualTokens, virtualSol, amount);
      if solCost * TotalFee(creator) + 9999 > U128_MAX then None
      else
        var fee := ComputeFee(solCost, TotalFee(creator));
        Some(CastU64(if fee > solCost then 0 else solCost - fee))
  }

  /** The buy price as the instruction module computes it from bare reserves. */
  function GetBuyPriceFromReserves(amount: u64, virtualSol: u64, virtualTokens: u64, realTokens: u64): Option<u64> {
    if amount == 0 then Some(0)
    else
      var r := TokensAfterBuy(virtualSol, virtualTokens, amount);
      if r > virtualTokens then None
      else Some(Min(CastU64(virtualTokens - r), realTokens))
  }

  /** The buy price as the global account computes it from the initial reserves. */
  function GetInitialBuyPrice(initialVirtualSol: u64, initialVirtualTokens: u64, initialRealTokens: u64, amount: u64)
    : Option<u64>
  {
    if amount == 0 then Some(0)
    else
      var r := TokensAfterBuy(initialVirtualSol, initialVirtualTokens, amount);
      if r > initialVirtualTokens then None
      else
        var s := initialVirtualTokens - r;
        Some(if s < initialRealTokens then CastU64(s) else initialRealTokens)
  }

  /** The three copies of the buy price agree on the same reserves, failures included. */
  lemma BuyPricesAgree(c: Curve, amount: u64)
    requires !c.complete
    ensures GetBuyPriceFromReserves(amount, c.virtualSol, c.virtualTokens, c.realTokens)
      == GetInitialBuyPrice(c.virtualSol, c.virtualTokens, c.realTokens, amount)
    ensures c.GetBuyPrice(amount) ==
      match GetBuyPriceFromReserves(amount, c.virtualSol, c.virtualTokens, c.realTokens)
      case None => Err(CurveError.Overflow)
      case Some(t) => Ok(t)
  {
    hide TokensAfterBuy;
    if amount > 0 {
      TokensAfterBuyIsLeast(c.virtualSol, c.virtualTokens, amount, c.virtualTokens);
    }
  }

  // ----- the two quotes, with their rates written out -----

  /** `paid` is the most that can be taken out of the x reserve, up to `cap`, for `dy` paid into the
      y reserve without lowering the product. */
  predicate IsLargestPayout(paid: nat, x: nat, y: nat, dy: nat, cap: nat) {
    && paid <= x && paid <= cap && KeepsProduct(x, y, paid, dy)
    && (paid < x && paid < cap ==> !KeepsProduct(x, y, paid + 1, dy))
  }

  lemma OutIsLargestPayout(x: nat, y: nat, dy: nat, cap: nat)
    requires y + dy > 0
    ensures IsLargestPayout(Min(Out(x, y, dy), cap), x, y, dy, cap)
  {
    hide Out, KeepsProduct;
    OutWithinReserve(x, y, dy);
    var paid := Min(Out(x, y, dy), cap);
    OutIsLargest(x, y, paid, dy);
    if paid < x { OutIsLargest(x, y, paid + 1, dy); }
  }

  lemma OutWithinReserve(x: nat, y: nat, dy: nat)
    requires y + dy > 0
    ensures Out(x, y, dy) <= x
  {
    FloorAdjoint(x + 1, x * dy, y + dy);
    assert (x + 1) * (y + dy) == x * y + x * dy + y + dy;
  }

  /** The largest input `x` that leaves the fee on top in the payment: the fee is 0.95%, or 1.25%
      for a coin with a creator. */
  predicate IsInput(x: nat, amount: nat, creator: bool) {
    var rate := if creator then 10125 else 10095;
    x * rate <= amount * 10000 < (x + 1) * rate
  }

  /** What a purchase is quoted: the largest payout for its input, or one of two constants when that
      is at most 100 tokens: the small one up to a payment of 0.01 SOL, the large one above. */
  lemma BuyQuoteAtItsRate(virtualTokens: u128, virtualSol: u128, realTokens: u128, creator: bool, amount: u64,
                          x: nat, payout: nat)
    requires IsInput(x, amount, creator) && IsLargestPayout(payout, virtualTokens, virtualSol, x, realTokens)
    ensures var quoted := BuyTokenAmount(virtualTokens, virtualSol, realTokens, creator, amount);
      if amount == 0 || virtualTokens == 0 then quoted == Some(0)
      else
        && (quoted.Some? <==> 0 < virtualSol + x <= U128_MAX && x * virtualTokens <= U128_MAX)
        && (quoted.Some? && payout > 100_000_000 ==> quoted.value == CastU64(payout))
        && (quoted.Some? && payout <= 100_000_000 && amount <= 10_000_000 ==> quoted.value == 255_476_000_000)
        && (quoted.Some? && payout <= 100_000_000 && amount > 10_000_000 ==> quoted.value == 25_547_619_000_000)
  {
    InputIsStripped(x, amount, creator);
    hide Out, StripFee, IsInput, KeepsProduct, IsLargestPayout;
    if virtualSol + x > 0 {
      OutIsLargestPayout(virtualTokens, virtualSol, x, realTokens);
      PayoutIsUnique(payout, SwapTokens(virtualTokens, virtualSol, realTokens, x), virtualTokens, virtualSol, x,
                     realTokens);
    }
  }

  lemma InputIsStripped(x: nat, amount: nat, creator: bool)
    ensures IsInput(x, amount, creator) <==> x == StripFee(amount, TotalFee(creator))
  {
    var rate := if creator then 10125 else 10095;
    FloorAdjoint(x, amount * 10000, rate);
    FloorAdjoint(x + 1, amount * 10000, rate);
  }

  lemma PayoutIsUnique(a: nat, b: nat, x: nat, y: nat, dy: nat, cap: nat)
    requires y + dy > 0 && IsLargestPayout(a, x, y, dy, cap) && IsLargestPayout(b, x, y, dy, cap)
    ensures a == b
  {
    hide Out, KeepsProduct;
    OutIsLargest(x, y, a, dy);
    OutIsLargest(x, y, b, dy);
    if a < x { OutIsLargest(x, y, a + 1, dy); }
    if b < x { OutIsLargest(x, y, b + 1, dy); }
  }

  /** The gross amount of a sale: the largest payout, as long as product and sum stay in 128 bits. */
  predicate IsGross(gross: nat, virtualTokens: nat, virtualSol: nat, amount: nat) {
    if amount * virtualSol > U128_MAX then gross == 0
    else if virtualTokens + amount > U128_MAX then gross == amount * virtualSol
    else IsLargestPayout(gross, virtualSol, virtualTokens, amount, virtualSol)
  }

  /** What a sale is quoted: its gross amount less 0.95%, or 1.25% for a coin with a creator, rounded up. */
  lemma SellQuoteAtItsRate(virtualTokens: u128, virtualSol: u128, creator: bool, amount: u64, gross: nat, fee: nat)
    requires IsGross(gross, virtualTokens, virtualSol, amount)
    requires IsShareRoundedUp(fee, gross, if creator then 125 else 95)
    ensures fee <= gross
    ensures var quoted := SellSolAmount(virtualTokens, virtualSol, creator, amount);
      if amount == 0 || virtualTokens == 0 then quoted == Some(0)
      else
        && (quoted.Some? <==> gross * (if creator then 125 else 95) + 9999 <= U128_MAX)
        && (quoted.Some? ==> quoted.value == CastU64(gross - fee))
  {
    if amount > 0 { GrossIsCost(gross, virtualTokens, virtualSol, amount); }
    hide SolCost, IsGross, ComputeFee, IsShareRoundedUp;
    FeeIsShareRoundedUp(fee, gross, TotalFee(creator));
    FeeRoundedUpAgainstDown(gross, TotalFee(creator));
  }

  lemma GrossIsCost(gross: nat, virtualTokens: u128, virtualSol: u128, amount: u64)
    requires amount > 0
    ensures IsGross(gross, virtualTokens, virtualSol, amount) ==> gross == SolCost(virtualTokens, virtualSol, amount)
  {
    hide KeepsProduct;
    if amount * virtualSol > U128_MAX {
      NothingOver(CheckedOr(virtualTokens + amount, 1));
    } else if virtualTokens + amount <= U128_MAX {
      assert SolCost(virtualTokens, virtualSol, amount) == Out(virtualSol, virtualTokens, amount);
      hide Out;
      OutWithinReserve(virtualSol, virtualTokens, amount);
      OutIsLargestPayout(virtualSol, virtualTokens, amount, virtualSol);
      hide IsLargestPayout;
      if IsLargestPayout(gross, virtualSol, virtualTokens, amount, virtualSol) {
        PayoutIsUnique(gross, Min(Out(virtualSol, virtualTokens, amount), virtualSol), virtualSol, virtualTokens,
                       amount, virtualSol);
      }
    }
  }

  // ----- against the bonding curve -----

  /** The stripped input is the largest amount that, with its fee on top, still fits in the payment. */
  lemma StrippedInputIsLargest(x: nat, amount: nat, feeBasisPoints: nat)
    ensures x <= StripFee(amount, feeBasisPoints) <==> x + ComputeFee(x, feeBasisPoints) <= amount
  {
    hide CeilDiv;
    FloorAdjoint(x, amount * 10000, feeBasisPoints + 10000);
    assert x * (feeBasisPoints + 10000) == x * feeBasisPoints + x * 10000;
    if x <= amount {
      CeilAdjoint(amount - x, x * feeBasisPoints, 10000);
    } else {
      assert x * feeBasisPoints >= 0;
    }
  }

  /** Swapping gives what the curve quotes, or one token unit more exactly when the curve's
      division leaves no remainder. */
  lemma SwapAgainstCurve(vs: nat, vt: nat, x: nat)
    requires x > 0 && vt > 0
    ensures TokensAfterBuy(vs, vt, x) <= vt
    ensures Out(vt, vs, x) == vt - TokensAfterBuy(vs, vt, x) + (if (vs * vt) % (vs + x) == 0 then 1 else 0)
  {
    var n, d := vs * vt, vs + x;
    TokensAfterBuyIsLeast(vs, vt, x, vt);
    var q, m := n / d, n % d;
    assert n == q * d + m;
    assert vt * d == n + vt * x;
    assert (vt - q) * d == vt * d - q * d;
    assert vt * x == (vt - q) * d - m;
    if m == 0 {
      FloorUnique(vt - q, vt * x, d);
    } else {
      assert (vt - q - 1) * d == (vt - q) * d - d;
      FloorUnique(vt - q - 1, vt * x, d);
    }
  }

  /** Above the dust limit the stand-alone formula, on the stripped input, quotes what the curve
      does or one token unit more; one more exactly when the curve's division leaves no remainder
      and the real reserve can still give it. At or below the limit the quote is a constant, and
      it asks for no more than the real reserve exactly when that reserve covers the constant. */
  lemma BuyAmountAgainstCurve(c: Curve, creator: bool, amount: u64)
    requires !c.complete && c.virtualTokens > 0 && amount > 0
    requires c.virtualSol + StripFee(amount, TotalFee(creator)) > 0
    ensures var x := StripFee(amount, TotalFee(creator));
      var swapped := SwapTokens(c.virtualTokens, c.virtualSol, c.realTokens, x);
      var quoted := BuyTokenAmount(c.virtualTokens, c.virtualSol, c.realTokens, creator, amount);
      && x <= amount
      && c.GetBuyPrice(x).Ok?
      && (swapped == c.GetBuyPrice(x).value || swapped == c.GetBuyPrice(x).value + 1)
      && (swapped == c.GetBuyPrice(x).value + 1 <==>
            x > 0 && (c.virtualSol * c.virtualTokens) % (c.virtualSol + x) == 0
            && c.GetBuyPrice(x).value < c.realTokens)
      && quoted == Some(if swapped > DUST then swapped else DustQuote(amount))
      && (quoted.value <= c.realTokens <==> swapped > DUST || DustQuote(amount) <= c.realTokens)
  {
    hide TokensAfterBuy, Out, StripFee;
    var x := StripFee(amount, TotalFee(creator));
    StrippedInputIsLargest(x, amount, TotalFee(creator));
    ProductFits(x, c.virtualTokens);
    if x > 0 {
      SwapAgainstCurve(c.virtualSol, c.virtualTokens, x);
    } else {
      NoInput(c.virtualTokens, c.virtualSol);
    }
  }

  /** The constant can ask for far more than the real reserve holds. */
  lemma DustQuoteCanExceedReserve()
    ensures BuyTokenAmount(1_073_000_000_000_000, 30_000_000_000, 1000, false, 1_000_000_000)
      == Some(25547619_000_000)
    ensures 25547619_000_000 > 1000
  {
  }

  lemma ProductFits(a: u64, b: u64)
    ensures a * b <= U128_MAX
  {
    MulMonotone(a, U64_MAX, b);
    MulMonotone(b, U64_MAX, U64_MAX);
  }

  lemma NoInput(x: nat, y: nat)
    requires y > 0
    ensures Out(x, y, 0) == 0
  {
  }

  /** The stand-alone sale quotes what the curve does at the same fee rate, or one lamport less
      exactly when the fee is not a whole number. On a drained curve the two part: the stand-alone
      formula quotes nothing where the curve quotes its whole virtual SOL reserve. */
  lemma SellAmountAgainstCurve(c: Curve, creator: bool, amount: u64)
    requires !c.complete && amount > 0
    ensures var gross := SolForTokens(c.virtualSol, c.virtualTokens, amount);
      var quoted := SellSolAmount(c.virtualTokens, c.virtualSol, creator, amount);
      var curve := c.GetSellPrice(amount, TotalFee(creator));
      && curve.Ok? && quoted.Some?
      && (c.virtualTokens > 0 ==>
            curve.value - quoted.value == if (gross * TotalFee(creator)) % 10000 == 0 then 0 else 1)
      && (c.virtualTokens == 0 ==> quoted.value == 0 && gross == c.virtualSol)
  {
    hide SolCost, SolForTokens, ComputeFee, FeeRoundedDown;
    SolForTokensIsLargest(c.virtualSol, c.virtualTokens, amount, 0);
    var gross := SolForTokens(c.virtualSol, c.virtualTokens, amount);
    FeeAgainst(gross, TotalFee(creator));
    SolCostIsShare(c.virtualSol, c.virtualTokens, amount);
    FeeRoundedUpAgainstDown(gross, TotalFee(creator));
    if c.virtualTokens == 0 {
      SolForTokensIsLargest(c.virtualSol, 0, amount, c.virtualSol);
    }
  }

  /** Beyond 128 bits the sale falls back: an overflowing product quotes nothing, and an overflowing
      denominator leaves the undivided product. */
  lemma OverflowingSale(virtualTokens: u128, virtualSol: u128, creator: bool, amount: u64)
    requires amount > 0
    ensures amount * virtualSol > U128_MAX ==> SellSolAmount(virtualTokens, virtualSol, creator, amount) == Some(0)
    ensures amount * virtualSol <= U128_MAX && virtualTokens + amount > U128_MAX ==>
      SolCost(virtualTokens, virtualSol, amount) == amount * virtualSol
  {
    if amount * virtualSol > U128_MAX {
      NothingOver(CheckedOr(virtualTokens + amount, 1));
      hide Quotient;
      FeeRoundedUpAgainstDown(0, TotalFee(creator));
    }
  }

  lemma NothingOver(b: nat)
    requires b > 0
    ensures Quotient(0, b) == 0
  {
  }

  lemma SolCostIsShare(vs: u64, vt: u64, a: u64)
    requires a > 0
    ensures SolCost(vt, vs, a) == SolForTokens(vs, vt, a)
  {
    ProductFits(a, vs);
  }

  lemma FeeRoundedUpAgainstDown(n: nat, rate: nat)
    requires rate <= 10000
    ensures ComputeFee(n, rate) - FeeRoundedDown(n, rate) == if (n * rate) % 10000 == 0 then 0 else 1
    ensures ComputeFee(n, rate) <= n
  {
    hide CeilDiv;
    MulMonotone(rate, 10000, n);
    CeilAdjoint(n, n * rate, 10000);
    var q := (n * rate) / 10000;
    CeilAdjoint(q, n * rate, 10000);
    CeilAdjoint(q + 1, n * rate, 10000);
    if q > 0 { CeilAdjoint(q - 1, n * rate, 10000); }
  }
}
