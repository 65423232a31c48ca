/** The four PumpSwap pool quotes. */
module PumpSwap {
  import opened MachineInts
  import opened Rounding

  const LP_FEE_BASIS_POINTS: nat := 25
  const PROTOCOL_FEE_BASIS_POINTS: nat := 5
  const COIN_CREATOR_FEE_BASIS_POINTS: nat := 5

  datatype PoolError = ZeroReserve | ExceedsReserve | Depleted | RawExceedsReserve | FeesExceedOutput | Overflow

  datatype BuyBaseResult = BuyBaseResult(internalQuoteAmount: u64, uiQuote: u64, maxQuote: u64)
  datatype BuyQuoteResult = BuyQuoteResult(base: u64, internalQuoteWithoutFees: u64, maxQuote: u64)
  datatype SellBaseResult = SellBaseResult(uiQuote: u64, minQuote: u64, internalQuoteAmountOut: u64)
  datatype SellQuoteResult = SellQuoteResult(internalRawQuote: u64, base: u64, minQuote: u64)

  /** The total fee rate; the creator's part is due only when the coin has a creator. */
  function FeeRate(creator: bool): nat {
    LP_FEE_BASIS_POINTS + PROTOCOL_FEE_BASIS_POINTS + if creator then COIN_CREATOR_FEE_BASIS_POINTS else 0
  }

  /** The fees on an amount, each rounded up on its own. */
  function Fees(amount: nat, creator: bool): nat {
    ComputeFee(amount, LP_FEE_BASIS_POINTS) + ComputeFee(amount, PROTOCOL_FEE_BASIS_POINTS)
      + if creator then ComputeFee(amount, COIN_CREATOR_FEE_BASIS_POINTS) else 0
  }

  /** What rounding the fees separately can cost, in quote units. */
  function Slack(creator: bool): nat {
    if creator then 2 else 1
  }

  /** Quote amount needed to buy `base` tokens. */
  function BuyBaseInput(base: u64, slippage: u64, baseReserve: u64, quoteReserve: u64, creator: bool)
    : Result<BuyBaseResult, PoolError>
  {
    if baseReserve == 0 || quoteReserve == 0 then Err(ZeroReserve)
    else if base > baseReserve then Err(ExceedsReserve)
    else if baseReserve - base == 0 then Err(Depleted)
    else
      var quoteAmountIn := CastU64(In(baseReserve, quoteReserve, base));
      var totalQuote := quoteAmountIn + Fees(quoteAmountIn, creator);
      if totalQuote > U64_MAX then Err(Overflow)
      else
        match SlippageBuy(totalQuote, slippage)
        case None => Err(Overflow)
        case Some(maxQuote) => Ok(BuyBaseResult(quoteAmountIn, totalQuote, maxQuote))
  }

  /** The part of a payment that is left to swap after the total fee rate is taken. */
  function EffectiveQuote(quote: nat, creator: bool): nat {
    (quote * 10000) / (10000 + FeeRate(creator))
  }

  /** Base tokens received for `quote`. */
  function BuyQuoteInput(quote: u64, slippage: u64, baseReserve: u64, quoteReserve: u64, creator: bool)
    : Result<BuyQuoteResult, PoolError>
  {
    if baseReserve == 0 || quoteReserve == 0 then Err(ZeroReserve)
    else
      var effectiveQuote := EffectiveQuote(quote, creator);
      var baseAmountOut := CastU64(Out(baseReserve, quoteReserve, effectiveQuote));
      match SlippageBuy(quote, slippage)
      case None => Err(Overflow)
      case Some(maxQuote) => Ok(BuyQuoteResult(baseAmountOut, CastU64(effectiveQuote), maxQuote))
  }

  /** Quote tokens received for `base`. */
  function SellBaseInput(base: u64, slippage: u64, baseReserve: u64, quoteReserve: u64, creator: bool)
    : Result<SellBaseResult, PoolError>
  {
    if baseReserve == 0 || quoteReserve == 0 then Err(ZeroReserve)
    else
      var quoteAmountOut := CastU64(Out(quoteReserve, baseReserve, base));
      var totalFees := Fees(quoteAmountOut, creator);
      if totalFees > quoteAmountOut then Err(FeesExceedOutput)
      else
        var finalQuote := quoteAmountOut - totalFees;
        match SlippageSell(finalQuote, slippage)
        case None => Err(Overflow)
        case Some(minQuote) => Ok(SellBaseResult(finalQuote, minQuote, quoteAmountOut))
  }

  /** The gross amount whose fees leave `quote`, before it is cut to 64 bits. */
  function RawQuote(quote: nat, creator: bool): nat {
    CeilDiv(quote * 10000, 10000 - FeeRate(creator))
  }

  /** Base tokens to sell to receive `quote`. */
  function SellQuoteInput(quote: u64, slippage: u64, baseReserve: u64, quoteReserve: u64, creator: bool)
    : Result<SellQuoteResult, PoolError>
  {
    if baseReserve == 0 || quoteReserve == 0 then Err(ZeroReserve)
    else if quote > quoteReserve then Err(ExceedsReserve)
    else
      var rawQuote := CastU64(RawQuote(quote, creator));
      if rawQuote >= quoteReserve then Err(RawExceedsReserve)
      else
        var baseAmountIn := CastU64(In(quoteReserve, baseReserve, rawQuote));
        match SlippageSell(quote, slippage)
        case None => Err(Overflow)
        case Some(minQuote) => Ok(SellQuoteResult(rawQuote, baseAmountIn, minQuote))
  }

  /** The limits handed to the user lie off the amount the user sees by its slippage share rounded
      down, or are the one-unit floor of a sale, and the effective quote survives its cast. */
  lemma LimitsAreOnTheUserAmount(amount: u64, slippage: u64, baseReserve: u64, quoteReserve: u64, creator: bool, d: nat)
    ensures var r := BuyBaseInput(amount, slippage, baseReserve, quoteReserve, creator);
      r.Ok? ==>
        && r.value.uiQuote <= r.value.maxQuote
        && (d <= r.value.maxQuote - r.value.uiQuote <==> d * 10000 <= r.value.uiQuote * slippage)
    ensures var r := BuyQuoteInput(amount, slippage, baseReserve, quoteReserve, creator);
      r.Ok? ==>
        && amount <= r.value.maxQuote
        && (d <= r.value.maxQuote - amount <==> d * 10000 <= amount * slippage)
        && (d <= r.value.internalQuoteWithoutFees <==> d * (10000 + FeeRate(creator)) <= amount * 10000)
    ensures var r := SellBaseInput(amount, slippage, baseReserve, quoteReserve, creator);
      r.Ok? ==>
        if r.value.uiQuote * 10000 <= slippage then r.value.minQuote == 1
        else
          && r.value.minQuote <= r.value.uiQuote
          && (d <= r.value.uiQuote - r.value.minQuote <==> d * 10000 <= r.value.uiQuote * slippage)
    ensures var r := SellQuoteInput(amount, slippage, baseReserve, quoteReserve, creator);
      r.Ok? ==>
        if amount * 10000 <= slippage then r.value.minQuote == 1
        else
          && r.value.minQuote <= amount
          && (d <= amount - r.value.minQuote <==> d * 10000 <= amount * slippage)
  {
    hide BuyBaseInput, BuyQuoteInput, SellBaseInput, SellQuoteInput;
    BuyLimits(amount, slippage, baseReserve, quoteReserve, creator, d);
    SellLimits(amount, slippage, baseReserve, quoteReserve, creator, d);
  }

  lemma BuyLimits(amount: u64, slippage: u64, baseReserve: u64, quoteReserve: u64, creator: bool, d: nat)
    ensures var r := BuyBaseInput(amount, slippage, baseReserve, quoteReserve, creator);
      r.Ok? ==>
        && r.value.uiQuote <= r.value.maxQuote
        && (d <= r.value.maxQuote - r.value.uiQuote <==> d * 10000 <= r.value.uiQuote * slippage)
    ensures var r := BuyQuoteInput(amount, slippage, baseReserve, quoteReserve, creator);
      r.Ok? ==>
        && amount <= r.value.maxQuote
        && (d <= r.value.maxQuote - amount <==> d * 10000 <= amount * slippage)
        && (d <= r.value.internalQuoteWithoutFees <==> d * (10000 + FeeRate(creator)) <= amount * 10000)
  {
    hide In, Out, Fees, SlippageBuy, EffectiveQuote;
    EffectiveIsLargest(d, amount, creator);
    EffectiveIsLargest(amount + 1, amount, creator);
    SlippageLimits(amount, slippage, d);
    var bought := BuyBaseInput(amount, slippage, baseReserve, quoteReserve, creator);
    if bought.Ok? { SlippageLimits(bought.value.uiQuote, slippage, d); }
  }

  lemma SellLimits(amount: u64, slippage: u64, baseReserve: u64, quoteReserve: u64, creator: bool, d: nat)
    ensures var r := SellBaseInput(amount, slippage, baseReserve, quoteReserve, creator);
      r.Ok? ==>
        if r.value.uiQuote * 10000 <= slippage then r.value.minQuote == 1
        else
          && r.value.minQuote <= r.value.uiQuote
          && (d <= r.value.uiQuote - r.value.minQuote <==> d * 10000 <= r.value.uiQuote * slippage)
    ensures var r := SellQuoteInput(amount, slippage, baseReserve, quoteReserve, creator);
      r.Ok? ==>
        if amount * 10000 <= slippage then r.value.minQuote == 1
        else
          && r.value.minQuote <= amount
          && (d <= amount - r.value.minQuote <==> d * 10000 <= amount * slippage)
  {
    hide In, Out, Fees, RawQuote, SlippageSell;
    SlippageLimits(amount, slippage, d);
    var sold := SellBaseInput(amount, slippage, baseReserve, quoteReserve, creator);
    if sold.Ok? { SlippageLimits(sold.value.uiQuote, slippage, d); }
  }

  /** When a purchase of base, or a sale for quote, is refused for the reserves. The last refusal of
      a sale falls exactly on the amounts that the reserve less one unit cannot net. */
  lemma ReserveRefusals(amount: u64, slippage: u64, baseReserve: u64, quoteReserve: u64, creator: bool)
    ensures var r := BuyBaseInput(amount, slippage, baseReserve, quoteReserve, creator);
      && (r == Err(ZeroReserve) <==> baseReserve == 0 || quoteReserve == 0)
      && (r == Err(ExceedsReserve) <==> baseReserve > 0 && quoteReserve > 0 && amount > baseReserve)
      && (r == Err(Depleted) <==> baseReserve > 0 && quoteReserve > 0 && amount == baseReserve)
    ensures var r := SellQuoteInput(amount, slippage, baseReserve, quoteReserve, creator);
      && (r == Err(ZeroReserve) <==> baseReserve == 0 || quoteReserve == 0)
      && (r == Err(ExceedsReserve) <==> baseReserve > 0 && quoteReserve > 0 && amount > quoteReserve)
      && (RawCastFits(amount, creator) ==>
          (r == Err(RawExceedsReserve) <==>
            baseReserve > 0 && 0 < quoteReserve && amount <= quoteReserve
            && amount * 10000 > (quoteReserve - 1) * (10000 - FeeRate(creator))))
  {
    hide In, Out, Fees, SlippageBuy, SlippageSell;
    RawCast(amount, creator);
    if quoteReserve > 0 { CeilAdjoint(quoteReserve - 1, amount * 10000, 10000 - FeeRate(creator)); }
    hide CeilDiv;
  }

  /** Exactly when each quote is accepted. Beyond the reserves and the fees of a sale only a limit
      that leaves its width refuses one, and for a purchase of base a total that does. */
  lemma QuotesAreAccepted(amount: u64, slippage: u64, baseReserve: u64, quoteReserve: u64, creator: bool)
    ensures BuyBaseInput(amount, slippage, baseReserve, quoteReserve, creator).Ok? <==>
      && amount < baseReserve && 0 < quoteReserve
      && var paid := CastU64(In(baseReserve, quoteReserve, amount));
         BuyLimitFits(paid + Fees(paid, creator), slippage)
    ensures BuyQuoteInput(amount, slippage, baseReserve, quoteReserve, creator).Ok? <==>
      0 < baseReserve && 0 < quoteReserve && BuyLimitFits(amount, slippage)
    ensures SellBaseInput(amount, slippage, baseReserve, quoteReserve, creator).Ok? <==>
      && 0 < baseReserve && 0 < quoteReserve
      && var gross := Out(quoteReserve, baseReserve, amount);
         Fees(gross, creator) <= gross && SellLimitFits(gross - Fees(gross, creator), slippage)
    ensures SellQuoteInput(amount, slippage, baseReserve, quoteReserve, creator).Ok? <==>
      && 0 < baseReserve && amount <= quoteReserve
      && CastU64(RawQuote(amount, creator)) < quoteReserve
      && SellLimitFits(amount, slippage)
  {
    BuysAreAccepted(amount, slippage, baseReserve, quoteReserve, creator);
    SalesAreAccepted(amount, slippage, baseReserve, quoteReserve, creator);
  }

  lemma BuysAreAccepted(amount: u64, slippage: u64, baseReserve: u64, quoteReserve: u64, creator: bool)
    ensures BuyBaseInput(amount, slippage, baseReserve, quoteReserve, creator).Ok? <==>
      && amount < baseReserve && 0 < quoteReserve
      && var paid := CastU64(In(baseReserve, quoteReserve, amount));
         BuyLimitFits(paid + Fees(paid, creator), slippage)
    ensures BuyQuoteInput(amount, slippage, baseReserve, quoteReserve, creator).Ok? <==>
      0 < baseReserve && 0 < quoteReserve && BuyLimitFits(amount, slippage)
  {
    hide In, Out, Fees, SlippageBuy, EffectiveQuote;
    SlippageExists(amount, slippage);
    if amount < baseReserve {
      var paid := CastU64(In(baseReserve, quoteReserve, amount));
      if paid + Fees(paid, creator) <= U64_MAX { SlippageExists(paid + Fees(paid, creator), slippage); }
    }
  }

  lemma SalesAreAccepted(amount: u64, slippage: u64, baseReserve: u64, quoteReserve: u64, creator: bool)
    ensures SellBaseInput(amount, slippage, baseReserve, quoteReserve, creator).Ok? <==>
      && 0 < baseReserve && 0 < quoteReserve
      && var gross := Out(quoteReserve, baseReserve, amount);
         Fees(gross, creator) <= gross && SellLimitFits(gross - Fees(gross, creator), slippage)
    ensures SellQuoteInput(amount, slippage, baseReserve, quoteReserve, creator).Ok? <==>
      && 0 < baseReserve && amount <= quoteReserve
      && CastU64(RawQuote(amount, creator)) < quoteReserve
      && SellLimitFits(amount, slippage)
  {
    hide In, Out, Fees, SlippageSell, RawQuote;
    SlippageExists(amount, slippage);
    if 0 < baseReserve {
      OutIsPartial(quoteReserve, baseReserve, amount);
      var gross := Out(quoteReserve, baseReserve, amount);
      if Fees(gross, creator) <= gross { SlippageExists(gross - Fees(gross, creator), slippage); }
    }
  }

  /** Three fees, each its own rate's share rounded up: 25 basis points, 5, and 5 more if the coin
      has a creator. */
  predicate AreFees(amount: nat, creator: bool, lp: nat, protocol: nat, coinCreator: nat) {
    && IsShareRoundedUp(lp, amount, 25)
    && IsShareRoundedUp(protocol, amount, 5)
    && if creator then IsShareRoundedUp(coinCreator, amount, 5) else coinCreator == 0
  }

  lemma FeesAreParts(amount: nat, creator: bool, lp: nat, protocol: nat, coinCreator: nat)
    requires lp == ComputeFee(amount, 25) && protocol == ComputeFee(amount, 5)
    requires coinCreator == if creator then ComputeFee(amount, 5) else 0
    ensures AreFees(amount, creator, lp, protocol, coinCreator)
    ensures Fees(amount, creator) == lp + protocol + coinCreator
  {
    FeeIsShareRoundedUp(lp, amount, 25);
    FeeIsShareRoundedUp(protocol, amount, 5);
    hide ComputeFee, IsShareRoundedUp;
  }

  /** What a buyer pays, or a seller is paid, differs from the swapped amount by just the three fees on it. */
  lemma UserAmountCarriesFees(amount: u64, slippage: u64, baseReserve: u64, quoteReserve: u64, creator: bool)
    ensures var bought := BuyBaseInput(amount, slippage, baseReserve, quoteReserve, creator);
      bought.Ok? ==>
        exists lp, protocol, coinCreator ::
          && AreFees(bought.value.internalQuoteAmount, creator, lp, protocol, coinCreator)
          && bought.value.uiQuote == bought.value.internalQuoteAmount + lp + protocol + coinCreator
    ensures var sold := SellBaseInput(amount, slippage, baseReserve, quoteReserve, creator);
      sold.Ok? ==>
        exists lp, protocol, coinCreator ::
          && AreFees(sold.value.internalQuoteAmountOut, creator, lp, protocol, coinCreator)
          && sold.value.internalQuoteAmountOut == sold.value.uiQuote + lp + protocol + coinCreator
  {
    hide In, Out, Fees, AreFees, ComputeFee;
    var bought := BuyBaseInput(amount, slippage, baseReserve, quoteReserve, creator);
    var sold := SellBaseInput(amount, slippage, baseReserve, quoteReserve, creator);
    if bought.Ok? {
      var q := bought.value.internalQuoteAmount;
      FeesAreParts(q, creator, ComputeFee(q, 25), ComputeFee(q, 5), if creator then ComputeFee(q, 5) else 0);
    }
    if sold.Ok? {
      var q := sold.value.internalQuoteAmountOut;
      FeesAreParts(q, creator, ComputeFee(q, 25), ComputeFee(q, 5), if creator then ComputeFee(q, 5) else 0);
    }
  }

  /** A purchase for quote pays out the most that the effective quote, and a sale of base the most
      that the base, covers without lowering the product. */
  lemma PayoutsAreLargest(amount: u64, slippage: u64, baseReserve: u64, quoteReserve: u64, creator: bool, d: nat)
    ensures var bought := BuyQuoteInput(amount, slippage, baseReserve, quoteReserve, creator);
      bought.Ok? && d <= baseReserve ==>
        (d <= bought.value.base <==> KeepsProduct(baseReserve, quoteReserve, d, bought.value.internalQuoteWithoutFees))
    ensures var sold := SellBaseInput(amount, slippage, baseReserve, quoteReserve, creator);
      sold.Ok? && d <= quoteReserve ==>
        (d <= sold.value.internalQuoteAmountOut <==> KeepsProduct(quoteReserve, baseReserve, d, amount))
  {
    hide Out, Fees, EffectiveQuote, SlippageBuy, SlippageSell, KeepsProduct;
    if 0 < baseReserve && 0 < quoteReserve {
      var e := EffectiveQuote(amount, creator);
      EffectiveIsLargest(amount + 1, amount, creator);
      OutIsPartial(baseReserve, quoteReserve, e);
      OutIsPartial(quoteReserve, baseReserve, amount);
      if d <= baseReserve { OutIsLargest(baseReserve, quoteReserve, d, e); }
      if d <= quoteReserve { OutIsLargest(quoteReserve, baseReserve, d, amount); }
    }
  }

  /** Where an amount is cut, its low 64 bits are what is quoted. */
  lemma CutAmountsKeepLowBits(amount: u64, slippage: u64, baseReserve: u64, quoteReserve: u64, creator: bool)
    ensures var bought := BuyBaseInput(amount, slippage, baseReserve, quoteReserve, creator);
      bought.Ok? ==>
        && amount < baseReserve
        && (In(baseReserve, quoteReserve, amount) - bought.value.internalQuoteAmount) % 0x1_0000_0000_0000_0000 == 0
    ensures var sold := SellQuoteInput(amount, slippage, baseReserve, quoteReserve, creator);
      sold.Ok? ==>
        && var raw := sold.value.internalRawQuote;
        && (RawQuote(amount, creator) - raw) % 0x1_0000_0000_0000_0000 == 0
        && raw < quoteReserve
        && (In(quoteReserve, baseReserve, raw) - sold.value.base) % 0x1_0000_0000_0000_0000 == 0
  {
    hide In, Fees, RawQuote, SlippageBuy, SlippageSell, CastU64;
    if amount < baseReserve { CastKeepsLowBits(In(baseReserve, quoteReserve, amount)); }
    var raw := CastU64(RawQuote(amount, creator));
    CastKeepsLowBits(RawQuote(amount, creator));
    if raw < quoteReserve { CastKeepsLowBits(In(quoteReserve, baseReserve, raw)); }
  }

  // ----- fees -----

  /** Separate rounding adds less than one unit per fee to the exact rate. */
  lemma FeeBounds(x: nat, creator: bool)
    ensures x * FeeRate(creator) <= 10000 * Fees(x, creator)
    ensures 10000 * Fees(x, creator) < x * FeeRate(creator) + 10000 * (Slack(creator) + 1)
  {
  }

  /** Rounding up is subadditive, so the fees are. */
  lemma FeesSubadditive(x: nat, d: nat, creator: bool)
    ensures Fees(x + d, creator) <= Fees(x, creator) + Fees(d, creator)
  {
    hide CeilDiv;
    CeilSubadditive(x * LP_FEE_BASIS_POINTS, d * LP_FEE_BASIS_POINTS, 10000);
    CeilSubadditive(x * PROTOCOL_FEE_BASIS_POINTS, d * PROTOCOL_FEE_BASIS_POINTS, 10000);
    assert PROTOCOL_FEE_BASIS_POINTS == COIN_CREATOR_FEE_BASIS_POINTS;
  }

  /** The fees exceed the amount exactly on these few amounts. */
  lemma FeesExceed(x: nat, creator: bool)
    ensures Fees(x, creator) > x <==> 1 <= x <= Slack(creator)
  {
    FeeBounds(x, creator);
  }

  /** The net amount is not monotone in the gross amount, but it never drops by more than the
      rounding slack. */
  lemma NetAlmostMonotone(x: nat, y: nat, creator: bool)
    requires x <= y
    ensures y - Fees(y, creator) >= x - Fees(x, creator) - Slack(creator)
  {
    FeesSubadditive(x, y - x, creator);
    FeesExceed(y - x, creator);
    SmallFees(y - x, creator);
  }

  lemma SmallFees(x: nat, creator: bool)
    ensures Fees(x, creator) <= x + Slack(creator)
  {
    FeeBounds(x, creator);
  }

  /** Going from `x` to `x + 1` steps over a multiple of `n`. */
  predicate Crosses(x: nat, n: nat)
    requires n > 0
  {
    x % n == 0
  }

  function Count(b: bool): nat {
    if b then 1 else 0
  }

  /** The first fee goes up right behind the multiples of 400, the others behind those of 2000. */
  lemma FeesStep(x: nat, creator: bool)
    ensures Fees(x + 1, creator) - Fees(x, creator) ==
      Count(Crosses(x, 400)) + Slack(creator) * Count(Crosses(x, 2000))
  {
    LpFeeSteps(x);
    ProtocolFeeSteps(x);
    hide ComputeFee, Crosses;
    assert PROTOCOL_FEE_BASIS_POINTS == COIN_CREATOR_FEE_BASIS_POINTS;
  }

  lemma LpFeeSteps(x: nat)
    ensures ComputeFee(x + 1, LP_FEE_BASIS_POINTS) == ComputeFee(x, LP_FEE_BASIS_POINTS) + Count(Crosses(x, 400))
  {
    assert ComputeFee(x, LP_FEE_BASIS_POINTS) == (x + 399) / 400;
    assert ComputeFee(x + 1, LP_FEE_BASIS_POINTS) == (x + 400) / 400;
  }

  lemma ProtocolFeeSteps(x: nat)
    ensures ComputeFee(x + 1, PROTOCOL_FEE_BASIS_POINTS) ==
      ComputeFee(x, PROTOCOL_FEE_BASIS_POINTS) + Count(Crosses(x, 2000))
  {
    assert ComputeFee(x, PROTOCOL_FEE_BASIS_POINTS) == (x + 1999) / 2000;
    assert ComputeFee(x + 1, PROTOCOL_FEE_BASIS_POINTS) == (x + 2000) / 2000;
  }

  lemma CrossingsApart(x: nat)
    ensures Crosses(x, 2000) ==> Crosses(x, 400)
    ensures !(Crosses(x, 400) && Crosses(x + 1, 400))
  {
    if Crosses(x, 2000) { RemainderUnique(x / 2000 * 5, 0, x, 400); }
    if Crosses(x, 400) { RemainderUnique(x / 400, 1, x + 1, 400); }
  }

  /** Exactly when a larger gross nets less: the step up is no larger than the slack and crosses a
      multiple of 2000 from the right place. */
  lemma LargerGrossNetsLess(x: nat, y: nat, creator: bool)
    requires x <= y
    ensures y - Fees(y, creator) < x - Fees(x, creator) <==>
      0 < y - x <= Slack(creator) && (Crosses(x, 2000) || (y - x == 2 && Crosses(x + 1, 2000)))
  {
    hide Fees, Crosses;
    FeesSubadditive(x, y - x, creator);
    FeesExceed(y - x, creator);
    FeesStep(x, creator);
    FeesStep(x + 1, creator);
    CrossingsApart(x);
    CrossingsApart(x + 1);
  }

  /** The bound on the drop is attained exactly right behind the multiples of 2000. */
  lemma NetDrops(x: nat, y: nat, creator: bool)
    requires x <= y
    ensures y - Fees(y, creator) == x - Fees(x, creator) - Slack(creator) <==> y == x + 1 && Crosses(x, 2000)
    ensures 2001 - Fees(2001, creator) == 2000 - Fees(2000, creator) - Slack(creator)
  {
    assert Crosses(2000, 2000) && Crosses(2000, 400);
    hide Fees, Crosses;
    LargerGrossNetsLess(x, y, creator);
    FeesStep(x, creator);
    FeesStep(x + 1, creator);
    FeesStep(2000, creator);
    CrossingsApart(x);
    CrossingsApart(x + 1);
  }

  /** Selling fails on fees exactly when the gross output is 1, or 1 to 2 with a creator. Every
      other refusal is an empty reserve or a slippage overflow. */
  lemma SellBaseFeeError(base: u64, slippage: u64, baseReserve: u64, quoteReserve: u64, creator: bool)
    requires baseReserve > 0 && quoteReserve > 0
    ensures Out(quoteReserve, baseReserve, base) < quoteReserve
    ensures SellBaseInput(base, slippage, baseReserve, quoteReserve, creator) == Err(FeesExceedOutput) <==>
      1 <= Out(quoteReserve, baseReserve, base) <= Slack(creator)
    ensures SellBaseInput(base, slippage, baseReserve, quoteReserve, creator).Ok? ==>
      var r := SellBaseInput(base, slippage, baseReserve, quoteReserve, creator).value;
      && r.internalQuoteAmountOut == Out(quoteReserve, baseReserve, base)
      && r.uiQuote == r.internalQuoteAmountOut - Fees(r.internalQuoteAmountOut, creator)
  {
    hide Out, Fees;
    OutIsPartial(quoteReserve, baseReserve, base);
    FeesExceed(Out(quoteReserve, baseReserve, base), creator);
  }

  // ----- buying: the two quotes are inverse -----

  /** The internal quote amount of a purchase is not cut by its 64-bit cast. */
  predicate BuyCastFits(base: nat, baseReserve: nat, quoteReserve: nat)
    requires base < baseReserve
  {
    quoteReserve * base <= U64_MAX * (baseReserve - base)
  }

  lemma BuyCast(base: nat, baseReserve: nat, quoteReserve: nat)
    requires base < baseReserve
    ensures BuyCastFits(base, baseReserve, quoteReserve) <==> In(baseReserve, quoteReserve, base) <= U64_MAX
    ensures !BuyCastFits(base, baseReserve, quoteReserve) ==>
      CastU64(In(baseReserve, quoteReserve, base)) + TWO_64 <= In(baseReserve, quoteReserve, base)
  {
    CeilAdjoint(U64_MAX, quoteReserve * base, baseReserve - base);
  }

  /** The internal quote of a purchase is the least effective payment that buys `base`. This is so
      exactly when the cast fits. */
  lemma BuyBaseIsLeastPayment(base: u64, slippage: u64, baseReserve: u64, quoteReserve: u64, creator: bool)
    requires BuyBaseInput(base, slippage, baseReserve, quoteReserve, creator).Ok?
    ensures var r := BuyBaseInput(base, slippage, baseReserve, quoteReserve, creator).value;
      BuyCastFits(base, baseReserve, quoteReserve) <==>
        (forall e: nat :: r.internalQuoteAmount <= e <==> base <= Out(baseReserve, quoteReserve, e))
  {
    hide In, Out, Fees;
    var r := BuyBaseInput(base, slippage, baseReserve, quoteReserve, creator).value;
    BuyCast(base, baseReserve, quoteReserve);
    forall e: nat
      ensures In(baseReserve, quoteReserve, base) <= e <==> base <= Out(baseReserve, quoteReserve, e)
    {
      SwapAdjunction(baseReserve, quoteReserve, base, e);
    }
    if !BuyCastFits(base, baseReserve, quoteReserve) {
      assert !(base <= Out(baseReserve, quoteReserve, r.internalQuoteAmount));
    }
  }

  /** The effective payment is the largest amount whose exact fee still fits in the payment. */
  lemma EffectiveIsLargest(e: nat, quote: nat, creator: bool)
    ensures e <= EffectiveQuote(quote, creator) <==> e * (10000 + FeeRate(creator)) <= quote * 10000
  {
    FloorAdjoint(e, quote * 10000, 10000 + FeeRate(creator));
  }

  /** Paying what a purchase of `base` was quoted buys at least `base`, exactly when the cast fits. */
  lemma PayingTheQuoteDelivers(base: u64, s1: u64, s2: u64, baseReserve: u64, quoteReserve: u64, creator: bool)
    requires BuyBaseInput(base, s1, baseReserve, quoteReserve, creator).Ok?
    ensures var r := BuyBaseInput(base, s1, baseReserve, quoteReserve, creator).value;
      var back := BuyQuoteInput(r.uiQuote, s2, baseReserve, quoteReserve, creator);
      back.Ok? ==> (back.value.base >= base <==> BuyCastFits(base, baseReserve, quoteReserve))
  {
    hide In, Out, Fees, EffectiveQuote, BuyCastFits;
    var r := BuyBaseInput(base, s1, baseReserve, quoteReserve, creator).value;
    var q, e := r.internalQuoteAmount, EffectiveQuote(r.uiQuote, creator);
    BuyCast(base, baseReserve, quoteReserve);
    FeeBounds(q, creator);
    EffectiveIsLargest(q, r.uiQuote, creator);
    EffectiveIsLargest(q + 3, r.uiQuote, creator);
    SwapAdjunction(baseReserve, quoteReserve, base, e);
    OutIsPartial(baseReserve, quoteReserve, e);
  }

  /** Asking what the tokens bought for `quote` cost gives at most one unit more than was paid,
      or two with a creator. */
  lemma QuotingThePurchase(quote: u64, s1: u64, s2: u64, baseReserve: u64, quoteReserve: u64, creator: bool)
    requires BuyQuoteInput(quote, s1, baseReserve, quoteReserve, creator).Ok?
    ensures var r := BuyQuoteInput(quote, s1, baseReserve, quoteReserve, creator).value;
      var back := BuyBaseInput(r.base, s2, baseReserve, quoteReserve, creator);
      && r.base < baseReserve
      && BuyCastFits(r.base, baseReserve, quoteReserve)
      && (back.Ok? ==> back.value.uiQuote <= quote + Slack(creator))
  {
    hide In, Out, Fees, EffectiveQuote, BuyCastFits;
    var r := BuyQuoteInput(quote, s1, baseReserve, quoteReserve, creator).value;
    var e := EffectiveQuote(quote, creator);
    EffectiveIsLargest(e, quote, creator);
    OutIsPartial(baseReserve, quoteReserve, e);
    SwapAdjunction(baseReserve, quoteReserve, r.base, e);
    BuyCast(r.base, baseReserve, quoteReserve);
    FeeBounds(In(baseReserve, quoteReserve, r.base), creator);
  }

  // ----- selling: the two quotes are inverse -----

  predicate SellCastFits(rawQuote: nat, baseReserve: nat, quoteReserve: nat)
    requires rawQuote < quoteReserve
  {
    baseReserve * rawQuote <= U64_MAX * (quoteReserve - rawQuote)
  }

  predicate RawCastFits(quote: nat, creator: bool) {
    quote * 10000 <= U64_MAX * (10000 - FeeRate(creator))
  }

  lemma SellCast(rawQuote: nat, baseReserve: nat, quoteReserve: nat)
    requires rawQuote < quoteReserve
    ensures SellCastFits(rawQuote, baseReserve, quoteReserve) <==> In(quoteReserve, baseReserve, rawQuote) <= U64_MAX
    ensures !SellCastFits(rawQuote, baseReserve, quoteReserve) ==>
      CastU64(In(quoteReserve, baseReserve, rawQuote)) < In(quoteReserve, baseReserve, rawQuote)
  {
    CeilAdjoint(U64_MAX, baseReserve * rawQuote, quoteReserve - rawQuote);
  }

  /** The base quoted for a sale is the least whose gross output reaches the raw quote. This is so
      exactly when the cast of the base amount fits. */
  lemma SellQuoteIsLeastBase(quote: u64, slippage: u64, baseReserve: u64, quoteReserve: u64, creator: bool)
    requires SellQuoteInput(quote, slippage, baseReserve, quoteReserve, creator).Ok?
    ensures var r := SellQuoteInput(quote, slippage, baseReserve, quoteReserve, creator).value;
      && r.internalRawQuote < quoteReserve
      && (SellCastFits(r.internalRawQuote, baseReserve, quoteReserve) <==>
          (forall b: nat :: r.base <= b <==> r.internalRawQuote <= Out(quoteReserve, baseReserve, b)))
  {
    hide In, Out, RawQuote;
    var r := SellQuoteInput(quote, slippage, baseReserve, quoteReserve, creator).value;
    var raw := r.internalRawQuote;
    SellCast(raw, baseReserve, quoteReserve);
    forall b: nat
      ensures In(quoteReserve, baseReserve, raw) <= b <==> raw <= Out(quoteReserve, baseReserve, b)
    {
      SwapAdjunction(quoteReserve, baseReserve, raw, b);
    }
    if !SellCastFits(raw, baseReserve, quoteReserve) {
      assert !(raw <= Out(quoteReserve, baseReserve, r.base));
    }
  }

  /** Selling what was quoted for `quote` pays at least `quote`, up to the rounding slack. */
  predicate SalePays(base: u64, quote: u64, baseReserve: u64, quoteReserve: u64, creator: bool) {
    var back := SellBaseInput(base, 0, baseReserve, quoteReserve, creator);
    back.Ok? && back.value.uiQuote + Slack(creator) >= quote
  }

  lemma SaleOfEnoughBasePays(base: u64, quote: u64, baseReserve: u64, quoteReserve: u64, creator: bool)
    requires 0 < baseReserve && 2 <= quote && RawQuote(quote, creator) <= Out(quoteReserve, baseReserve, base)
    ensures quoteReserve > 0 ==> SalePays(base, quote, baseReserve, quoteReserve, creator)
  {
    hide Out, Fees, RawQuote;
    var g := Out(quoteReserve, baseReserve, base);
    OutIsPartial(quoteReserve, baseReserve, base);
    CeilAdjoint(g, quote * 10000, 10000 - FeeRate(creator));
    RawIsCeil(quote, creator);
    FeeBounds(g, creator);
    FeesExceed(g, creator);
  }

  lemma RawIsCeil(quote: nat, creator: bool)
    ensures RawQuote(quote, creator) == CeilDiv(quote * 10000, 10000 - FeeRate(creator))
  {
  }

  /** A raw amount that lost its high bit is so small that half the quote reserve is out of reach. */
  lemma SaleAfterWrapFails(raw: u64, base: u64, quote: u64, baseReserve: u64, quoteReserve: u64, creator: bool)
    requires 0 < baseReserve && 2 * raw <= quoteReserve && raw < quoteReserve
    requires base <= In(quoteReserve, baseReserve, raw)
    requires 2 * quote > quoteReserve + 4
    ensures !SalePays(base, quote, baseReserve, quoteReserve, creator)
  {
    hide Out, In, Fees, KeepsProduct;
    var g := Out(quoteReserve, baseReserve, base);
    InIsLeast(quoteReserve, baseReserve, raw, baseReserve);
    HalfIsEnough(quoteReserve, baseReserve, raw);
    OutIsPartial(quoteReserve, baseReserve, base);
    OutIsLargest(quoteReserve, baseReserve, g, base);
    OutIsAtMostHalf(quoteReserve, baseReserve, g, base);
  }

  lemma HalfIsEnough(x: nat, y: nat, dx: nat)
    requires 2 * dx <= x
    ensures KeepsProduct(x, y, dx, y)
  {
    assert (x - dx) * (2 * y) == (2 * (x - dx)) * y;
    MulMonotone(x, 2 * (x - dx), y);
  }

  lemma OutIsAtMostHalf(x: nat, y: nat, dx: nat, dy: nat)
    requires 0 < y && dy <= y && dx <= x && KeepsProduct(x, y, dx, dy)
    ensures 2 * dx <= x
  {
    MulMonotone(y + dy, 2 * y, x - dx);
    assert (2 * (x - dx)) * y >= x * y;
    if 2 * (x - dx) < x {
      MulMonotone(2 * (x - dx) + 1, x, y);
    }
  }

  lemma RawCast(quote: nat, creator: bool)
    ensures RawCastFits(quote, creator) <==> RawQuote(quote, creator) <= U64_MAX
  {
    CeilAdjoint(U64_MAX, quote * 10000, 10000 - FeeRate(creator));
  }

  lemma RawAfterWrap(quote: u64, creator: bool)
    requires !RawCastFits(quote, creator)
    ensures 4 * CastU64(RawQuote(quote, creator)) <= quote
    ensures 2 * quote > U64_MAX + 4
  {
    hide CeilDiv;
    RawCast(quote, creator);
    CeilAdjoint(TWO_64 + TWO_64 / 200, quote * 10000, 10000 - FeeRate(creator));
  }

  /** Selling the quoted base, for wanted amounts from 2 on. With both casts intact it pays the wanted
      amount up to the rounding slack. A raw amount that lost its high bit makes it fail. A base
      amount that was cut buys a gross amount short of the raw one and nets less than was wanted; it
      stays within the slack exactly if the gross amount falls short by one of very few units, and
      that shortfall is one whose net is still enough. */
  lemma SellingTheQuotePays(quote: u64, slippage: u64, baseReserve: u64, quoteReserve: u64, creator: bool)
    requires 2 <= quote
    requires SellQuoteInput(quote, slippage, baseReserve, quoteReserve, creator).Ok?
    ensures var r := SellQuoteInput(quote, slippage, baseReserve, quoteReserve, creator).value;
      var raw, gross := r.internalRawQuote, Out(quoteReserve, baseReserve, r.base);
      var back := SellBaseInput(r.base, 0, baseReserve, quoteReserve, creator);
      && raw < quoteReserve
      && (!RawCastFits(quote, creator) ==> !SalePays(r.base, quote, baseReserve, quoteReserve, creator))
      && (RawCastFits(quote, creator) && SellCastFits(raw, baseReserve, quoteReserve) ==>
            SalePays(r.base, quote, baseReserve, quoteReserve, creator))
      && (RawCastFits(quote, creator) && !SellCastFits(raw, baseReserve, quoteReserve) ==>
            && gross < raw
            && (back.Ok? ==> back.value.uiQuote < quote)
            && (SalePays(r.base, quote, baseReserve, quoteReserve, creator) <==>
                PaysShort(raw, CutBase(raw, baseReserve, quoteReserve), quote, baseReserve, quoteReserve, creator)))
  {
    hide In, Out, Fees, RawQuote, RawCastFits, SellCastFits, SalePays, PaysShort;
    var r := SellQuoteInput(quote, slippage, baseReserve, quoteReserve, creator).value;
    var raw := r.internalRawQuote;
    RawCast(quote, creator);
    SellCast(raw, baseReserve, quoteReserve);
    if !RawCastFits(quote, creator) {
      RawAfterWrap(quote, creator);
      SaleAfterWrapFails(raw, r.base, quote, baseReserve, quoteReserve, creator);
    } else {
      SwapAdjunction(quoteReserve, baseReserve, raw, r.base);
      if SellCastFits(raw, baseReserve, quoteReserve) {
        SaleOfEnoughBasePays(r.base, quote, baseReserve, quoteReserve, creator);
      } else {
        SaleOfTooLittleBase(r.base, quote, baseReserve, quoteReserve, creator);
        ShortSalePays(r.base, quote, baseReserve, quoteReserve, creator);
      }
    }
  }

  /** The base amount as it comes out of its cast. */
  function CutBase(raw: nat, baseReserve: nat, quoteReserve: nat): u64
    requires raw < quoteReserve
  {
    CastU64(In(quoteReserve, baseReserve, raw))
  }

  /** The fees leave enough of this gross amount. */
  predicate NetReaches(gross: nat, quote: nat, creator: bool) {
    Fees(gross, creator) <= gross && quote <= gross - Fees(gross, creator) + Slack(creator)
  }

  /** On the reserves: `base` sells for exactly `raw - short`, and that nets enough. */
  predicate SellsShort(raw: nat, short: nat, base: nat, quote: nat, baseReserve: nat, quoteReserve: nat, creator: bool)
    requires 0 < short <= raw < quoteReserve
  {
    var gross := raw - short;
    && baseReserve * gross <= base * (quoteReserve - gross)
    && baseReserve * (gross + 1) > base * (quoteReserve - (gross + 1))
    && NetReaches(gross, quote, creator)
  }

  /** So short a sale that it still pays. */
  ghost predicate PaysShort(raw: nat, base: nat, quote: nat, baseReserve: nat, quoteReserve: nat, creator: bool)
    requires raw < quoteReserve
  {
    exists short: nat :: 1 <= short <= Slack(creator) + 1 && short <= raw &&
      SellsShort(raw, short, base, quote, baseReserve, quoteReserve, creator)
  }

  lemma SalePaysByGross(base: u64, quote: u64, baseReserve: u64, quoteReserve: u64, creator: bool)
    requires 0 < baseReserve && 0 < quoteReserve
    ensures SalePays(base, quote, baseReserve, quoteReserve, creator) <==>
      NetReaches(Out(quoteReserve, baseReserve, base), quote, creator)
  {
    hide Out, Fees;
    OutIsPartial(quoteReserve, baseReserve, base);
  }

  lemma GrossOnReserves(base: u64, gross: nat, baseReserve: u64, quoteReserve: u64)
    requires 0 < baseReserve && gross + 1 < quoteReserve
    ensures Out(quoteReserve, baseReserve, base) == gross <==>
      && baseReserve * gross <= base * (quoteReserve - gross)
      && baseReserve * (gross + 1) > base * (quoteReserve - (gross + 1))
  {
    hide Out, CeilDiv;
    SwapAdjunction(quoteReserve, baseReserve, gross, base);
    SwapAdjunction(quoteReserve, baseReserve, gross + 1, base);
    CeilAdjoint(base, baseReserve * gross, quoteReserve - gross);
    CeilAdjoint(base, baseReserve * (gross + 1), quoteReserve - (gross + 1));
  }

  lemma ShortSalePays(base: u64, quote: u64, baseReserve: u64, quoteReserve: u64, creator: bool)
    requires 0 < baseReserve && 2 <= quote && RawQuote(quote, creator) < quoteReserve
    requires Out(quoteReserve, baseReserve, base) < RawQuote(quote, creator)
    ensures var raw := RawQuote(quote, creator);
      SalePays(base, quote, baseReserve, quoteReserve, creator) <==>
        PaysShort(raw, base, quote, baseReserve, quoteReserve, creator)
  {
    hide Out, SalePays, NetReaches, RawQuote, SellsShort;
    var raw := RawQuote(quote, creator);
    var gross := Out(quoteReserve, baseReserve, base);
    SaleOfTooLittleBase(base, quote, baseReserve, quoteReserve, creator);
    SalePaysByGross(base, quote, baseReserve, quoteReserve, creator);
    if SalePays(base, quote, baseReserve, quoteReserve, creator) {
      SellsShortMeans(raw, raw - gross, base, quote, baseReserve, quoteReserve, creator);
    }
    if PaysShort(raw, base, quote, baseReserve, quoteReserve, creator) {
      var short: nat :| 1 <= short <= Slack(creator) + 1 && short <= raw &&
        SellsShort(raw, short, base, quote, baseReserve, quoteReserve, creator);
      SellsShortMeans(raw, short, base, quote, baseReserve, quoteReserve, creator);
    }
  }

  lemma SellsShortMeans(raw: nat, short: nat, base: u64, quote: u64, baseReserve: u64, quoteReserve: u64, creator: bool)
    requires 0 < baseReserve && 0 < short <= raw < quoteReserve
    ensures SellsShort(raw, short, base, quote, baseReserve, quoteReserve, creator) <==>
      Out(quoteReserve, baseReserve, base) == raw - short && NetReaches(raw - short, quote, creator)
  {
    hide Out, NetReaches;
    GrossOnReserves(base, raw - short, baseReserve, quoteReserve);
  }

  /** A sale whose gross output falls short of the raw quote nets less than was wanted. */
  lemma SaleOfTooLittleBase(base: u64, quote: u64, baseReserve: u64, quoteReserve: u64, creator: bool)
    requires 0 < baseReserve && 0 < quoteReserve && 2 <= quote
    requires Out(quoteReserve, baseReserve, base) < RawQuote(quote, creator)
    ensures var back := SellBaseInput(base, 0, baseReserve, quoteReserve, creator);
      back.Ok? ==> back.value.uiQuote < quote
    ensures SalePays(base, quote, baseReserve, quoteReserve, creator) ==>
      RawQuote(quote, creator) <= Out(quoteReserve, baseReserve, base) + Slack(creator) + 1
  {
    hide Out, Fees, RawQuote;
    var g := Out(quoteReserve, baseReserve, base);
    OutIsPartial(quoteReserve, baseReserve, base);
    FeeBounds(g, creator);
    RawAgainst(g, quote, creator);
    RawAgainst(g + Slack(creator) + 1, quote, creator);
  }

  /** The raw quote is the least amount whose exact net reaches the wanted one. */
  lemma RawAgainst(g: nat, quote: nat, creator: bool)
    ensures RawQuote(quote, creator) <= g <==> quote * 10000 <= g * (10000 - FeeRate(creator))
  {
    CeilAdjoint(g, quote * 10000, 10000 - FeeRate(creator));
  }

  lemma RawQuoteOf1994()
    ensures RawQuote(1994, false) == 2000 && RawCastFits(1994, false)
  {
  }

  /** With one unit left in the quote reserve the base amount is a plain product. */
  lemma LastButOneUnit(baseReserve: u64)
    ensures In(2001, baseReserve, 2000) == 2000 * baseReserve
    ensures SellCastFits(2000, baseReserve, 2001) <==> 2000 * baseReserve <= U64_MAX
  {
  }

  /** An accepted sale whose base amount is cut and that still pays up to the slack. */
  lemma CutSaleCanStillPay()
    ensures var r := SellQuoteInput(1994, 0, 18446744073709551, 2001, false);
      && r.Ok? && r.value.internalRawQuote == 2000 && RawCastFits(1994, false)
      && !SellCastFits(2000, 18446744073709551, 2001)
      && SalePays(r.value.base, 1994, 18446744073709551, 2001, false)
  {
    hide In, Out, RawQuote, RawCastFits, SellCastFits;
    RawQuoteOf1994();
    LastButOneUnit(18446744073709551);
    GrossIs1999();
    assert Fees(1999, false) == 6;
    hide Fees;
  }

  lemma GrossIs1999()
    ensures Out(2001, 18446744073709551, 18446744073709550384) == 1999
  {
    FloorUnique(1999, 2001 * 18446744073709550384, 18446744073709551 + 18446744073709550384);
  }

  /** An accepted sale whose base amount is cut to nothing. */
  lemma CutSaleCanFail()
    ensures var r := SellQuoteInput(1994, 0, 0x1000_0000_0000_0000, 2001, false);
      && r == Ok(SellQuoteResult(2000, 0, 1994)) && RawCastFits(1994, false)
      && !SellCastFits(2000, 0x1000_0000_0000_0000, 2001)
      && !SalePays(0, 1994, 0x1000_0000_0000_0000, 2001, false)
  {
    hide In, Out, Fees, RawQuote, RawCastFits, SellCastFits;
    RawQuoteOf1994();
    LastButOneUnit(0x1000_0000_0000_0000);
    NothingForNothing(2001, 0x1000_0000_0000_0000);
    FeesExceed(0, false);
  }

  /** An accepted sale whose raw quote is cut. */
  lemma CutRawQuoteIsAccepted()
    ensures SellQuoteInput(U64_MAX, 0, 1, U64_MAX, false).Ok? && !RawCastFits(U64_MAX, false)
  {
  }

  /** An accepted purchase of half the supply that is quoted at nothing. */
  lemma CutPurchaseIsAccepted()
    ensures BuyBaseInput(0x2_0000_0000, 0, 0x2_0000_0001, 0x2_0000_0000, false) == Ok(BuyBaseResult(0, 0, 0))
    ensures !BuyCastFits(0x2_0000_0000, 0x2_0000_0001, 0x2_0000_0000)
  {
  }

  /** The two smallest sales, cut or not, on the reserves alone. Asking for nothing always works.
      Asking for one unit fails with a creator when the quoted base buys a gross output of just two,
      and when the base amount is cut, which takes a quote reserve of three, unless so little is left
      of it that it buys nothing. */
  lemma SmallestSales(quote: u64, slippage: u64, baseReserve: u64, quoteReserve: u64, creator: bool)
    requires quote < 2
    requires SellQuoteInput(quote, slippage, baseReserve, quoteReserve, creator).Ok?
    ensures var r := SellQuoteInput(quote, slippage, baseReserve, quoteReserve, creator).value;
      && r.internalRawQuote == 2 * quote < quoteReserve
      && (SalePays(r.base, quote, baseReserve, quoteReserve, creator) <==>
          || quote == 0
          || (SellCastFits(2, baseReserve, quoteReserve) &&
              !(creator && 3 * baseReserve > (quoteReserve - 3) * CeilDiv(2 * baseReserve, quoteReserve - 2)))
          || (!SellCastFits(2, baseReserve, quoteReserve) && 3 * baseReserve < 2 * TWO_64))
      && (quote == 1 && !SellCastFits(2, baseReserve, quoteReserve) ==> quoteReserve == 3)
  {
    hide In, Out, SellCastFits, CeilDiv;
    SmallRawQuotes(quote, creator);
    if quote == 0 {
      NothingForNothing(quoteReserve, baseReserve);
      FeesExceed(0, creator);
    } else {
      SellCast(2, baseReserve, quoteReserve);
      if SellCastFits(2, baseReserve, quoteReserve) {
        SaleForOne(baseReserve, quoteReserve, creator);
      } else {
        CutSaleForOne(baseReserve, quoteReserve, creator);
      }
    }
  }

  lemma SmallRawQuotes(quote: nat, creator: bool)
    requires quote < 2
    ensures CastU64(RawQuote(quote, creator)) == 2 * quote
  {
  }

  /** A sale meant to pay one unit fails only if the fees exceed its gross output. */
  lemma PaysOne(base: u64, baseReserve: u64, quoteReserve: u64, creator: bool)
    requires 0 < baseReserve && 0 < quoteReserve
    ensures SalePays(base, 1, baseReserve, quoteReserve, creator) <==>
      !(1 <= Out(quoteReserve, baseReserve, base) <= Slack(creator))
    ensures Out(quoteReserve, baseReserve, base) < quoteReserve
  {
    hide Out, Fees;
    OutIsPartial(quoteReserve, baseReserve, base);
    FeesExceed(Out(quoteReserve, baseReserve, base), creator);
  }

  lemma SaleForOne(baseReserve: u64, quoteReserve: u64, creator: bool)
    requires 0 < baseReserve && 2 < quoteReserve && In(quoteReserve, baseReserve, 2) <= U64_MAX
    ensures SalePays(In(quoteReserve, baseReserve, 2), 1, baseReserve, quoteReserve, creator) <==>
      !(creator && 3 * baseReserve > (quoteReserve - 3) * CeilDiv(2 * baseReserve, quoteReserve - 2))
  {
    hide Out, CeilDiv, SalePays;
    var base := In(quoteReserve, baseReserve, 2);
    SwapAdjunction(quoteReserve, baseReserve, 2, base);
    PaysOne(base, baseReserve, quoteReserve, creator);
    if quoteReserve > 3 {
      SwapAdjunction(quoteReserve, baseReserve, 3, base);
      CeilAdjoint(base, 3 * baseReserve, quoteReserve - 3);
    }
  }

  lemma CutSaleForOne(baseReserve: u64, quoteReserve: u64, creator: bool)
    requires 0 < baseReserve && 2 < quoteReserve && In(quoteReserve, baseReserve, 2) > U64_MAX
    ensures quoteReserve == 3
    ensures SalePays(CastU64(In(quoteReserve, baseReserve, 2)), 1, baseReserve, quoteReserve, creator) <==>
      3 * baseReserve < 2 * TWO_64
  {
    hide Out, SalePays;
    CeilAdjoint(U64_MAX, 2 * baseReserve, quoteReserve - 2);
    assert quoteReserve == 3;
    DividedByOne(2 * baseReserve);
    hide In, CeilDiv;
    var base := 2 * baseReserve - TWO_64;
    ShareOfThree(baseReserve, base);
    PaysOne(base, baseReserve, 3, creator);
  }

  lemma DividedByOne(n: nat)
    ensures CeilDiv(n, 1) == n
  {
  }

  lemma ShareOfThree(baseReserve: nat, base: nat)
    requires 0 < baseReserve && base < baseReserve
    ensures 0 == Out(3, baseReserve, base) <==> 2 * base < baseReserve
    ensures Out(3, baseReserve, base) <= 1
  {
    FloorAdjoint(1, 3 * base, baseReserve + base);
    FloorAdjoint(2, 3 * base, baseReserve + base);
  }

  lemma NothingForNothing(x: nat, y: nat)
    requires x > 0 && y > 0
    ensures In(x, y, 0) == 0 && Out(x, y, 0) == 0
  {
  }

  // ----- sequences of swaps -----

  datatype Pool = Pool(base: u64, quote: u64) {
    function K(): nat { base * quote }
  }

  datatype Swap = BuyBase(amount: u64) | BuyQuote(amount: u64) | SellBase(amount: u64) | SellQuote(amount: u64)

  /** A swap moves the amounts its quote computes before fees. It is refused when there is no
      quote or when a reserve would leave 64 bits. */
  function Apply(p: Pool, s: Swap, creator: bool): Option<Pool> {
    match s
    case BuyBase(amount) =>
      var q := BuyBaseInput(amount, 0, p.base, p.quote, creator);
      if q.Err? || p.quote + q.value.internalQuoteAmount > U64_MAX then None
      else Some(Pool(p.base - amount, p.quote + q.value.internalQuoteAmount))
    case BuyQuote(amount) =>
      var q := BuyQuoteInput(amount, 0, p.base, p.quote, creator);
      if q.Err? || p.quote + q.value.internalQuoteWithoutFees > U64_MAX || q.value.base > p.base then None
      else Some(Pool(p.base - q.value.base, p.quote + q.value.internalQuoteWithoutFees))
    case SellBase(amount) =>
      var q := SellBaseInput(amount, 0, p.base, p.quote, creator);
      if q.Err? || p.base + amount > U64_MAX || q.value.internalQuoteAmountOut > p.quote then None
      else Some(Pool(p.base + amount, p.quote - q.value.internalQuoteAmountOut))
    case SellQuote(amount) =>
      var q := SellQuoteInput(amount, 0, p.base, p.quote, creator);
      if q.Err? || p.base + q.value.base > U64_MAX || q.value.internalRawQuote > p.quote then None
      else Some(Pool(p.base + q.value.base, p.quote - q.value.internalRawQuote))
  }

  /** The casts of the two input quotes keep their value; the output quotes need nothing. */
  predicate CastFits(p: Pool, s: Swap, creator: bool) {
    match s
    case BuyBase(amount) => amount < p.base ==> BuyCastFits(amount, p.base, p.quote)
    case SellQuote(amount) =>
      var raw := CastU64(RawQuote(amount, creator)); raw < p.quote ==> SellCastFits(raw, p.base, p.quote)
    case _ => true
  }

  /** A quoted swap goes through whenever what it pays in fits in 64 bits on top of that reserve: the
      reserve it takes from always covers it. */
  lemma QuotedSwapsGoThrough(p: Pool, amount: u64, creator: bool)
    ensures var q := BuyBaseInput(amount, 0, p.base, p.quote, creator);
      Apply(p, BuyBase(amount), creator).Some? <==> q.Ok? && p.quote + q.value.internalQuoteAmount <= U64_MAX
    ensures var q := BuyQuoteInput(amount, 0, p.base, p.quote, creator);
      Apply(p, BuyQuote(amount), creator).Some? <==> q.Ok? && p.quote + q.value.internalQuoteWithoutFees <= U64_MAX
    ensures var q := SellBaseInput(amount, 0, p.base, p.quote, creator);
      Apply(p, SellBase(amount), creator).Some? <==> q.Ok? && p.base + amount <= U64_MAX
    ensures var q := SellQuoteInput(amount, 0, p.base, p.quote, creator);
      Apply(p, SellQuote(amount), creator).Some? <==> q.Ok? && p.base + q.value.base <= U64_MAX
  {
    hide In, Out, Fees, RawQuote, EffectiveQuote, SlippageBuy, SlippageSell;
    if 0 < p.base && 0 < p.quote {
      OutIsPartial(p.base, p.quote, EffectiveQuote(amount, creator));
      OutIsPartial(p.quote, p.base, amount);
    }
  }

  /** A swap keeps the product of the reserves exactly when its casts fit. */
  lemma SwapKeepsProduct(p: Pool, s: Swap, creator: bool)
    requires Apply(p, s, creator).Some?
    ensures var q := Apply(p, s, creator).value;
      && q.base > 0 && q.quote > 0
      && (q.K() >= p.K() <==> CastFits(p, s, creator))
  {
    hide Apply, BuyCastFits, SellCastFits, RawQuote, Pool.K;
    match s
    case BuyBase(amount) => BuyBaseKeepsProduct(p, amount, creator);
    case BuyQuote(amount) => BuyQuoteKeepsProduct(p, amount, creator);
    case SellBase(amount) => SellBaseKeepsProduct(p, amount, creator);
    case SellQuote(amount) => SellQuoteKeepsProduct(p, amount, creator);
  }

  lemma BuyBaseKeepsProduct(p: Pool, amount: u64, creator: bool)
    requires Apply(p, BuyBase(amount), creator).Some?
    ensures var q := Apply(p, BuyBase(amount), creator).value;
      && q.base > 0 && q.quote > 0
      && (q.K() >= p.K() <==> CastFits(p, BuyBase(amount), creator))
  {
    hide In, Out, Fees, BuyCastFits, KeepsProduct, Pool.K;
    var q := BuyBaseInput(amount, 0, p.base, p.quote, creator).value;
    BuyCast(amount, p.base, p.quote);
    InIsLeast(p.base, p.quote, amount, q.internalQuoteAmount);
    ProductAfterBuy(p, amount, q.internalQuoteAmount);
  }

  lemma BuyQuoteKeepsProduct(p: Pool, amount: u64, creator: bool)
    requires Apply(p, BuyQuote(amount), creator).Some?
    ensures var q := Apply(p, BuyQuote(amount), creator).value;
      && q.base > 0 && q.quote > 0 && q.K() >= p.K()
  {
    hide In, Out, EffectiveQuote, KeepsProduct, Pool.K;
    var e := EffectiveQuote(amount, creator);
    EffectiveIsLargest(amount + 1, amount, creator);
    OutIsPartial(p.base, p.quote, e);
    OutIsLargest(p.base, p.quote, Out(p.base, p.quote, e), e);
    ProductAfterBuy(p, Out(p.base, p.quote, e), e);
  }

  lemma SellBaseKeepsProduct(p: Pool, amount: u64, creator: bool)
    requires Apply(p, SellBase(amount), creator).Some?
    ensures var q := Apply(p, SellBase(amount), creator).value;
      && q.base > 0 && q.quote > 0 && q.K() >= p.K()
  {
    hide In, Out, Fees, KeepsProduct, Pool.K;
    SellBaseFeeError(amount, 0, p.base, p.quote, creator);
    OutIsLargest(p.quote, p.base, Out(p.quote, p.base, amount), amount);
    ProductAfterSale(p, amount, Out(p.quote, p.base, amount));
  }

  lemma SellQuoteKeepsProduct(p: Pool, amount: u64, creator: bool)
    requires Apply(p, SellQuote(amount), creator).Some?
    ensures var q := Apply(p, SellQuote(amount), creator).value;
      && q.base > 0 && q.quote > 0
      && (q.K() >= p.K() <==> CastFits(p, SellQuote(amount), creator))
  {
    hide In, Out, Fees, RawQuote, SellCastFits, KeepsProduct, Pool.K;
    var q := SellQuoteInput(amount, 0, p.base, p.quote, creator).value;
    SellCast(q.internalRawQuote, p.base, p.quote);
    InIsLeast(p.quote, p.base, q.internalRawQuote, q.base);
    ProductAfterSale(p, q.base, q.internalRawQuote);
  }

  lemma ProductAfterBuy(p: Pool, dx: nat, dy: nat)
    requires dx <= p.base && p.quote + dy <= U64_MAX
    ensures Pool(p.base - dx, p.quote + dy).K() >= p.K() <==> KeepsProduct(p.base, p.quote, dx, dy)
  {
  }

  lemma ProductAfterSale(p: Pool, dy: nat, dx: nat)
    requires dx <= p.quote && p.base + dy <= U64_MAX
    ensures Pool(p.base + dy, p.quote - dx).K() >= p.K() <==> KeepsProduct(p.quote, p.base, dx, dy)
  {
  }

  function ApplyAll(p: Pool, swaps: seq<Swap>, creator: bool): Option<Pool>
    decreases |swaps|
  {
    if swaps == [] then Some(p)
    else
      match Apply(p, swaps[0], creator)
      case None => None
      case Some(next) => ApplyAll(next, swaps[1..], creator)
  }

  predicate AllCastsFit(p: Pool, swaps: seq<Swap>, creator: bool)
    decreases |swaps|
  {
    swaps == [] ||
    (CastFits(p, swaps[0], creator) &&
     (Apply(p, swaps[0], creator).Some? ==> AllCastsFit(Apply(p, swaps[0], creator).value, swaps[1..], creator)))
  }

  /** Over any sequence of swaps the product never falls, so no sequence takes quote out of the
      pool for free: if the pool gives back no base, it holds at least the quote it began with. */
  lemma {:induction false} SwapsNeverPay(p: Pool, swaps: seq<Swap>, creator: bool)
    requires p.base > 0 && p.quote > 0
    requires ApplyAll(p, swaps, creator).Some? && AllCastsFit(p, swaps, creator)
    ensures var e := ApplyAll(p, swaps, creator).value;
      && e.base > 0 && e.quote > 0 && e.K() >= p.K()
      && (e.base <= p.base ==> e.quote >= p.quote)
      && (e.quote <= p.quote ==> e.base >= p.base)
    decreases |swaps|
  {
    hide Apply, CastFits;
    if swaps != [] {
      var next := Apply(p, swaps[0], creator).value;
      SwapKeepsProduct(p, swaps[0], creator);
      SwapsNeverPay(next, swaps[1..], creator);
    }
    var e := ApplyAll(p, swaps, creator).value;
    if e.base <= p.base { FactorsAgainst(e.quote, e.base, p.quote, p.base); }
    if e.quote <= p.quote { FactorsAgainst(e.base, e.quote, p.base, p.quote); }
  }
}
