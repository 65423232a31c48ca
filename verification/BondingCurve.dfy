/** The PumpFun bonding curve: its account, its two quotes, and runs of trades against it. */
module BondingCurve {
  import opened MachineInts
  import Rounding

  const INITIAL_VIRTUAL_TOKEN_RESERVES: u64 := 1_073_000_000_000_000
  const INITIAL_VIRTUAL_SOL_RESERVES: u64 := 30_000_000_000
  const INITIAL_REAL_TOKEN_RESERVES: u64 := 793_100_000_000_000

  datatype CurveError = CurveIsComplete | Overflow

  /** The virtual token reserve after `amount` lamports are added to the virtual SOL reserve. */
  function TokensAfterBuy(virtualSol: nat, virtualTokens: nat, amount: nat): nat
    requires amount > 0
  {
    (virtualSol * virtualTokens) / (virtualSol + amount) + 1
  }

  /** The share of the virtual SOL reserve that `amount` tokens are worth. */
  function SolForTokens(virtualSol: nat, virtualTokens: nat, amount: nat): nat
    requires amount > 0
  {
    (amount * virtualSol) / (virtualTokens + amount)
  }

  function FeeRoundedDown(amount: nat, feeBasisPoints: nat): nat {
    (amount * feeBasisPoints) / 10000
  }

  /** The reserves of a bonding curve account. */
  datatype Curve = Curve(virtualTokens: u64, virtualSol: u64, realTokens: u64, realSol: u64, complete: bool) {

    /** The constant-product invariant. */
    function K(): nat {
      virtualSol * virtualTokens
    }

    /** Tokens received for `amount` lamports. */
    function GetBuyPrice(amount: u64): Result<u64, CurveError> {
      if complete then
        Err(CurveIsComplete)
      else if amount == 0 then
        Ok(0)
      else
        var r := TokensAfterBuy(virtualSol, virtualTokens, amount);
        if r > virtualTokens then
          Err(Overflow)
        else
          var s := CastU64(virtualTokens - r);
          Ok(if s < realTokens then s else realTokens)
    }

    /** Lamports received for `amount` tokens, after a fee in basis points. */
    function GetSellPrice(amount: u64, feeBasisPoints: u64): Result<u64, CurveError> {
      if complete then
        Err(CurveIsComplete)
      else if amount == 0 then
        Ok(0)
      else
        var n := SolForTokens(virtualSol, virtualTokens, amount);
        var a := FeeRoundedDown(n, feeBasisPoints);
        if a > n then Err(Overflow) else Ok(CastU64(n - a))
    }
  }

  /** A fresh curve after the developer's own first trade. */
  function FromDevTrade(devTokens: u64, devSol: u64): Result<Curve, CurveError> {
    if devTokens > INITIAL_REAL_TOKEN_RESERVES || INITIAL_VIRTUAL_SOL_RESERVES + devSol > U64_MAX then
      Err(Overflow)
    else
      Ok(Curve(INITIAL_VIRTUAL_TOKEN_RESERVES - devTokens, INITIAL_VIRTUAL_SOL_RESERVES + devSol,
               INITIAL_REAL_TOKEN_RESERVES - devTokens, devSol, false))
  }

  const GENESIS: Curve := Curve(INITIAL_VIRTUAL_TOKEN_RESERVES, INITIAL_VIRTUAL_SOL_RESERVES,
                                INITIAL_REAL_TOKEN_RESERVES, 0, false)

  // ----- what a single quote means -----

  lemma TokensAfterBuyIsLeast(vs: nat, vt: nat, a: nat, left: nat)
    requires a > 0
    ensures TokensAfterBuy(vs, vt, a) <= left <==> (vs + a) * left > vs * vt
    ensures TokensAfterBuy(vs, vt, a) <= vt <==> vt > 0
  {
    var n, i := vs * vt, vs + a;
    FloorAdjoint(left, n, i);
    assert left * i == i * left;
    FloorAdjoint(vt, n, i);
    assert vt * i == n + vt * a;
    assert vt > 0 ==> vt * a > 0;
  }

  lemma SolForTokensIsLargest(vs: nat, vt: nat, a: nat, g: nat)
    requires a > 0 && g <= vs
    ensures SolForTokens(vs, vt, a) <= vs
    ensures g <= SolForTokens(vs, vt, a) <==> (vs - g) * (vt + a) >= vs * vt
  {
    var n, d := a * vs, vt + a;
    assert vs * d == vs * vt + n;
    assert (vs + 1) * d > n by { assert (vs + 1) * d == vs * d + d; }
    FloorAdjoint(vs + 1, n, d);
    FloorAdjoint(g, n, d);
    assert (vs - g) * d == vs * d - g * d;
  }

  /** A buy quote exists exactly when the virtual token reserve is not empty, and it is the
      largest payout, within the real reserve, that leaves the product strictly larger. */
  lemma BuyQuoteIsLargestSafePayout(c: Curve, amount: u64, t: nat)
    requires !c.complete && amount > 0
    ensures c.GetBuyPrice(amount).Ok? <==> c.virtualTokens > 0
    ensures c.virtualTokens > 0 ==> c.GetBuyPrice(amount).value <= c.virtualTokens
    ensures c.virtualTokens > 0 && t <= c.virtualTokens ==>
      (t <= c.GetBuyPrice(amount).value <==>
        t <= c.realTokens && (c.virtualSol + amount) * (c.virtualTokens - t) > c.K())
  {
    hide TokensAfterBuy;
    var left := if t <= c.virtualTokens then c.virtualTokens - t else 0;
    TokensAfterBuyIsLeast(c.virtualSol, c.virtualTokens, amount, left);
  }

  /** A fee-free sell quote is the largest payout that does not lower the product. */
  lemma SellQuoteIsLargestSafePayout(c: Curve, amount: u64, g: nat)
    requires !c.complete && amount > 0
    ensures c.GetSellPrice(amount, 0).Ok?
    ensures c.GetSellPrice(amount, 0).value <= c.virtualSol
    ensures g <= c.virtualSol ==>
      (g <= c.GetSellPrice(amount, 0).value <==> (c.virtualSol - g) * (c.virtualTokens + amount) >= c.K())
  {
    hide SolForTokens;
    SolForTokensIsLargest(c.virtualSol, c.virtualTokens, amount, Min(g, c.virtualSol));
  }

  /** What a fee takes off the gross quote is its share rounded down. A fee of at most 100% is always
      charged; a higher one underflows exactly when it eats more than the gross amount. */
  lemma SellFeeOutcome(c: Curve, amount: u64, fee: u64, d: nat)
    requires !c.complete
    ensures c.GetSellPrice(amount, 0).Ok?
    ensures c.GetSellPrice(amount, fee).Ok? ==>
      var gross, net := c.GetSellPrice(amount, 0).value, c.GetSellPrice(amount, fee).value;
      net <= gross && (d <= gross - net <==> d * 10000 <= gross * fee)
    ensures fee <= 10000 ==> c.GetSellPrice(amount, fee).Ok?
    ensures c.GetSellPrice(amount, fee).Err? <==>
      amount > 0 && c.GetSellPrice(amount, 0).value * fee >= (c.GetSellPrice(amount, 0).value + 1) * 10000
  {
    hide SolForTokens;
    if amount > 0 {
      SolForTokensIsLargest(c.virtualSol, c.virtualTokens, amount, 0);
      var n := SolForTokens(c.virtualSol, c.virtualTokens, amount);
      FeeAgainst(n, fee);
      FloorAdjoint(d, n * fee, 10000);
    } else if d > 0 {
      assert d * 10000 > 0;
    }
  }

  /** Where both quotes stop: a completed curve quotes nothing, and nothing is quoted for nothing. */
  lemma QuoteEdges(c: Curve, amount: u64, fee: u64)
    ensures c.GetBuyPrice(amount) == Err(CurveIsComplete) <==> c.complete
    ensures c.GetSellPrice(amount, fee) == Err(CurveIsComplete) <==> c.complete
    ensures !c.complete ==> c.GetBuyPrice(0) == Ok(0) && c.GetSellPrice(0, fee) == Ok(0)
  {
    hide TokensAfterBuy, SolForTokens, FeeRoundedDown;
  }

  lemma FeeAgainst(n: nat, fee: nat)
    ensures fee <= 10000 ==> FeeRoundedDown(n, fee) <= n
    ensures FeeRoundedDown(n, fee) > n <==> n * fee >= (n + 1) * 10000
  {
    FloorAdjoint(n + 1, n * fee, 10000);
    if fee <= 10000 { MulMonotone(fee, 10000, n); }
  }

  // ----- runs of trades -----

  datatype Trade = Buy(sol: u64) | Sell(tokens: u64)

  /** A trade moves the quoted amounts between the trader and the reserves. It is refused when
      there is no quote or when a reserve would leave its width. */
  function Step(c: Curve, t: Trade): Option<Curve> {
    match t
    case Buy(sol) =>
      var q := c.GetBuyPrice(sol);
      if q.Err? || c.virtualSol + sol > U64_MAX || c.realSol + sol > U64_MAX || q.value > c.virtualTokens then
        None
      else
        assert q.value <= c.realTokens;
        Some(c.(virtualTokens := c.virtualTokens - q.value, virtualSol := c.virtualSol + sol,
                realTokens := c.realTokens - q.value, realSol := c.realSol + sol))
    case Sell(tokens) =>
      var q := c.GetSellPrice(tokens, 0);
      if q.Err? || c.virtualTokens + tokens > U64_MAX || c.realTokens + tokens > U64_MAX
         || q.value > c.realSol || q.value > c.virtualSol then
        None
      else
        Some(c.(virtualTokens := c.virtualTokens + tokens, virtualSol := c.virtualSol - q.value,
                realTokens := c.realTokens + tokens, realSol := c.realSol - q.value))
  }

  /** Exactly when a trade goes through: only a width, a completed curve, an empty token reserve or
      too little real SOL stops it. Virtual and real reserves then move by the same amounts. */
  lemma TradesGoThrough(c: Curve, t: Trade)
    ensures t.Buy? ==> (Step(c, t).Some? <==>
      && !c.complete && (t.sol == 0 || c.virtualTokens > 0)
      && c.virtualSol + t.sol <= U64_MAX && c.realSol + t.sol <= U64_MAX)
    ensures t.Sell? ==> (Step(c, t).Some? <==>
      && !c.complete && c.GetSellPrice(t.tokens, 0).value <= c.realSol
      && c.virtualTokens + t.tokens <= U64_MAX && c.realTokens + t.tokens <= U64_MAX)
    ensures Step(c, t).Some? ==>
      var d := Step(c, t).value;
      && d.virtualTokens - c.virtualTokens == d.realTokens - c.realTokens
      && d.virtualSol - c.virtualSol == d.realSol - c.realSol
      && d.complete == c.complete
      && match t
         case Buy(sol) =>
           d.virtualSol == c.virtualSol + sol && c.GetBuyPrice(sol) == Ok(c.virtualTokens - d.virtualTokens)
         case Sell(tokens) =>
           d.virtualTokens == c.virtualTokens + tokens && c.GetSellPrice(tokens, 0) == Ok(c.virtualSol - d.virtualSol)
  {
    hide TokensAfterBuy, SolForTokens;
    if !c.complete {
      match t
      case Buy(sol) =>
        if sol > 0 { BuyQuoteIsLargestSafePayout(c, sol, 0); }
      case Sell(tokens) =>
        if tokens > 0 { SellQuoteIsLargestSafePayout(c, tokens, 0); }
    }
  }

  function Run(c: Curve, trades: seq<Trade>): Option<Curve>
    decreases |trades|
  {
    if trades == [] then Some(c)
    else
      match Step(c, trades[0])
      case None => None
      case Some(next) => Run(next, trades[1..])
  }

  /** Trades that move something on the buying side. */
  predicate HasBuy(trades: seq<Trade>) {
    exists k :: 0 <= k < |trades| && trades[k].Buy? && trades[k].sol > 0
  }

  /** No step lowers the product; a non-empty buy raises it. */
  lemma StepKeepsProduct(c: Curve, t: Trade)
    requires Step(c, t).Some?
    ensures c.virtualTokens > 0 ==> Step(c, t).value.virtualTokens > 0
    ensures Step(c, t).value.K() >= c.K()
    ensures t.Buy? && t.sol > 0 ==> Step(c, t).value.K() > c.K()
  {
    match t
    case Buy(sol) =>
      if sol > 0 { BuyQuoteIsLargestSafePayout(c, sol, c.GetBuyPrice(sol).value); }
    case Sell(tokens) =>
      if tokens > 0 { SellQuoteIsLargestSafePayout(c, tokens, c.GetSellPrice(tokens, 0).value); }
  }

  lemma {:induction false} RunKeepsProduct(c: Curve, trades: seq<Trade>)
    requires Run(c, trades).Some?
    ensures c.virtualTokens > 0 ==> Run(c, trades).value.virtualTokens > 0
    ensures Run(c, trades).value.K() >= c.K()
    ensures HasBuy(trades) ==> Run(c, trades).value.K() > c.K()
    decreases |trades|
  {
    if trades != [] {
      StepKeepsProduct(c, trades[0]);
      RunKeepsProduct(Step(c, trades[0]).value, trades[1..]);
      if HasBuy(trades) && !(trades[0].Buy? && trades[0].sol > 0) {
        var k :| 0 <= k < |trades| && trades[k].Buy? && trades[k].sol > 0;
        assert trades[1..][k - 1] == trades[k];
      }
    }
  }

  /** No sequence of trades pays: whoever ends with at least the tokens they began with has put
      at least as much SOL into the curve as they took out, and strictly more if they bought. */
  lemma NoArbitrage(c: Curve, trades: seq<Trade>)
    requires c.virtualTokens > 0 && Run(c, trades).Some?
    requires Run(c, trades).value.virtualTokens <= c.virtualTokens
    ensures Run(c, trades).value.virtualSol >= c.virtualSol
    ensures HasBuy(trades) ==> Run(c, trades).value.virtualSol > c.virtualSol
  {
    hide Run, Step;
    RunKeepsProduct(c, trades);
    var e := Run(c, trades).value;
    FactorsAgainst(e.virtualSol, e.virtualTokens, c.virtualSol, c.virtualTokens);
  }

  /** Selling everything that `amount` lamports bought returns at most `amount - 1` of them. */
  lemma RoundTripLoses(c: Curve, amount: u64)
    requires amount > 0 && c.virtualTokens > 0 && Step(c, Buy(amount)).Some?
    ensures Step(c, Buy(amount)).value.GetSellPrice(c.GetBuyPrice(amount).value, 0).Ok?
    ensures Step(c, Buy(amount)).value.GetSellPrice(c.GetBuyPrice(amount).value, 0).value <= amount - 1
  {
    var d := Step(c, Buy(amount)).value;
    var t := c.GetBuyPrice(amount).value;
    StepKeepsProduct(c, Buy(amount));
    if t > 0 {
      SellQuoteIsLargestSafePayout(d, t, amount);
      assert (d.virtualSol - amount) * (d.virtualTokens + t) == c.K();
    }
  }

  // ----- solvency -----

  /** Every token outside the curve was bought from it. */
  function Outstanding(c: Curve): int {
    INITIAL_REAL_TOKEN_RESERVES - c.realTokens
  }

  /** Every sale in the run is of tokens that had been bought before. */
  predicate SalesAreCovered(c: Curve, trades: seq<Trade>)
    decreases |trades|
  {
    trades == [] ||
    ((trades[0].Sell? ==> trades[0].tokens <= Outstanding(c)) &&
     (Step(c, trades[0]).Some? ==> SalesAreCovered(Step(c, trades[0]).value, trades[1..])))
  }

  /** What holds of every curve reachable from the initial reserves. */
  predicate Sound(c: Curve) {
    && !c.complete
    && c.virtualSol == c.realSol + INITIAL_VIRTUAL_SOL_RESERVES
    && c.virtualTokens + INITIAL_REAL_TOKEN_RESERVES == c.realTokens + INITIAL_VIRTUAL_TOKEN_RESERVES
    && c.realTokens <= INITIAL_REAL_TOKEN_RESERVES
    && c.K() >= GENESIS.K()
  }

  /** In a sound curve, whatever was bought can be sold back: the gross price is in the vault. */
  lemma SoundCurvePays(c: Curve, amount: u64)
    requires Sound(c) && amount <= Outstanding(c)
    ensures c.GetSellPrice(amount, 0).Ok? && c.GetSellPrice(amount, 0).value <= c.realSol
    ensures Step(c, Sell(amount)).Some?
  {
    hide SolForTokens;
    if amount > 0 {
      SellQuoteIsLargestSafePayout(c, amount, c.GetSellPrice(amount, 0).value);
      FactorsAgainst(c.virtualSol - c.GetSellPrice(amount, 0).value, c.virtualTokens + amount,
                     INITIAL_VIRTUAL_SOL_RESERVES, INITIAL_VIRTUAL_TOKEN_RESERVES);
    }
  }

  lemma StepKeepsSound(c: Curve, t: Trade)
    requires Sound(c) && (t.Sell? ==> t.tokens <= Outstanding(c))
    ensures Step(c, t).Some? <==> (t.Buy? ==> c.virtualSol + t.sol <= U64_MAX)
    ensures Step(c, t).Some? ==> Sound(Step(c, t).value)
  {
    match t
    case Buy(sol) =>
      if sol > 0 { BuyQuoteIsLargestSafePayout(c, sol, 0); }
      if Step(c, t).Some? { StepKeepsProduct(c, t); }
    case Sell(tokens) =>
      SoundCurvePays(c, tokens);
      StepKeepsProduct(c, t);
  }

  /** No buy of the run carries the virtual SOL reserve past 64 bits. */
  predicate BuysFit(c: Curve, trades: seq<Trade>)
    decreases |trades|
  {
    trades == [] ||
    ((trades[0].Buy? ==> c.virtualSol + trades[0].sol <= U64_MAX) &&
     (Step(c, trades[0]).Some? ==> BuysFit(Step(c, trades[0]).value, trades[1..])))
  }

  /** The SOL put in by the buys of a run. */
  function Bought(trades: seq<Trade>): nat {
    if trades == [] then 0
    else (if trades[0].Buy? then trades[0].sol else 0) + Bought(trades[1..])
  }

  /** A run whose buys together fit above the reserve has no buy that does not. */
  lemma {:induction false} SmallBuysFit(c: Curve, trades: seq<Trade>)
    requires c.virtualSol + Bought(trades) <= U64_MAX
    ensures BuysFit(c, trades)
    decreases |trades|
  {
    if trades != [] && Step(c, trades[0]).Some? {
      SmallBuysFit(Step(c, trades[0]).value, trades[1..]);
    }
  }

  /** Curve solvency over every run from the initial reserves. Virtual and real reserves keep
      their distance on both sides, and the whole outstanding supply, or any part of it, can
      always be sold for SOL the curve really holds. A run of covered trades stops exactly at a
      buy that would carry the SOL reserve past 64 bits. */
  lemma {:induction false} EveryRunIsSolvent(c: Curve, trades: seq<Trade>)
    requires Sound(c) && SalesAreCovered(c, trades)
    ensures Run(c, trades).Some? ==> Sound(Run(c, trades).value)
    ensures Run(c, trades).Some? ==>
      forall amount: u64 :: amount <= Outstanding(Run(c, trades).value) ==>
        Run(c, trades).value.GetSellPrice(amount, 0).Ok? &&
        Run(c, trades).value.GetSellPrice(amount, 0).value <= Run(c, trades).value.realSol
    ensures Run(c, trades).Some? <==> BuysFit(c, trades)
    ensures c.virtualSol + Bought(trades) <= U64_MAX ==> Run(c, trades).Some?
    decreases |trades|
  {
    if c.virtualSol + Bought(trades) <= U64_MAX { SmallBuysFit(c, trades); }
    if trades == [] {
      forall amount: u64 | amount <= Outstanding(c)
        ensures c.GetSellPrice(amount, 0).Ok? && c.GetSellPrice(amount, 0).value <= c.realSol
      {
        SoundCurvePays(c, amount);
      }
    } else {
      StepKeepsSound(c, trades[0]);
      if Step(c, trades[0]).Some? {
        EveryRunIsSolvent(Step(c, trades[0]).value, trades[1..]);
      }
    }
  }

  /** The curve that `from_dev_trade` writes down is the one a first buy of the same size makes,
      and it is a sound starting point. */
  lemma DevTradeIsFirstBuy(devSol: u64)
    requires GENESIS.virtualSol + devSol <= U64_MAX
    ensures Sound(GENESIS)
    ensures GENESIS.GetBuyPrice(devSol).Ok?
    ensures Step(GENESIS, Buy(devSol)).Some?
    ensures FromDevTrade(GENESIS.GetBuyPrice(devSol).value, devSol) == Ok(Step(GENESIS, Buy(devSol)).value)
    ensures Sound(FromDevTrade(GENESIS.GetBuyPrice(devSol).value, devSol).value)
  {
    StepKeepsSound(GENESIS, Buy(devSol));
  }

  /** The account for any first trade: both token reserves lose its tokens, both SOL reserves gain its
      SOL. It is sound exactly when the developer took no more than a constant-product swap pays. */
  lemma DevTradeMovesReserves(devTokens: u64, devSol: u64)
    ensures FromDevTrade(devTokens, devSol).Ok? <==>
      devTokens <= 793_100_000_000_000 && 30_000_000_000 + devSol <= U64_MAX
    ensures FromDevTrade(devTokens, devSol).Ok? ==>
      var c := FromDevTrade(devTokens, devSol).value;
      && c.virtualTokens + devTokens == 1_073_000_000_000_000
      && c.realTokens + devTokens == 793_100_000_000_000
      && c.virtualSol == 30_000_000_000 + devSol && c.realSol == devSol && !c.complete
      && (Sound(c) <==> devTokens <= Rounding.Out(1_073_000_000_000_000, 30_000_000_000, devSol))
  {
    hide Rounding.Out;
    if FromDevTrade(devTokens, devSol).Ok? {
      Rounding.OutIsLargest(INITIAL_VIRTUAL_TOKEN_RESERVES, INITIAL_VIRTUAL_SOL_RESERVES, devTokens, devSol);
    }
  }

  // ----- splitting an order -----

  function Sum(amounts: seq<u64>): nat {
    if amounts == [] then 0 else amounts[0] + Sum(amounts[1..])
  }

  function Buys(amounts: seq<u64>): (r: seq<Trade>)
    ensures |r| == |amounts|
  {
    if amounts == [] then [] else [Buy(amounts[0])] + Buys(amounts[1..])
  }

  function NonZero(amounts: seq<u64>): nat {
    if amounts == [] then 0 else (if amounts[0] > 0 then 1 else 0) + NonZero(amounts[1..])
  }

  /** Tokens collected by buying the amounts one after the other on the moving curve. */
  function SplitTotal(c: Curve, amounts: seq<u64>): nat
    decreases |amounts|
  {
    if amounts == [] then 0
    else
      match Step(c, Buy(amounts[0]))
      case None => 0
      case Some(next) => c.virtualTokens - next.virtualTokens + SplitTotal(next, amounts[1..])
  }

  /** A buy that does not empty the curve overshoots the old product by at most one token's worth. */
  lemma StepOvershoot(c: Curve, a: u64)
    requires c.virtualTokens > 0 && Step(c, Buy(a)).Some?
    ensures var d := Step(c, Buy(a)).value;
      d.realTokens == 0 || d.K() <= c.K() + (if a > 0 then d.virtualSol else 0)
  {
    hide TokensAfterBuy;
    var d := Step(c, Buy(a)).value;
    if a > 0 && d.realTokens > 0 {
      var t := c.GetBuyPrice(a).value;
      BuyQuoteIsLargestSafePayout(c, a, t);
      BuyQuoteIsLargestSafePayout(c, a, t + 1);
      assert (c.virtualSol + a) * (c.virtualTokens - (t + 1)) == d.K() - d.virtualSol;
    }
  }

  /** What a buy moves. */
  lemma BuyMoves(c: Curve, a: u64)
    requires c.virtualTokens > 0 && Step(c, Buy(a)).Some?
    ensures var d := Step(c, Buy(a)).value;
      && c.GetBuyPrice(a) == Ok(c.virtualTokens - d.virtualTokens)
      && d.virtualTokens > 0
      && d.virtualSol == c.virtualSol + a
      && c.virtualTokens - d.virtualTokens == c.realTokens - d.realTokens
      && !d.complete
      && (a == 0 ==> d == c)
      && (a > 0 ==> d.K() > c.K())
  {
    hide TokensAfterBuy;
    StepKeepsProduct(c, Buy(a));
  }

  /** Where a run of buys ends, and how far above the ideal curve rounding can carry it. */
  lemma {:induction false} BuysLand(c: Curve, amounts: seq<u64>)
    requires c.virtualTokens > 0 && !c.complete && Run(c, Buys(amounts)).Some?
    ensures var e := Run(c, Buys(amounts)).value;
      && e.virtualSol == c.virtualSol + Sum(amounts)
      && e.virtualTokens + SplitTotal(c, amounts) == c.virtualTokens
      && e.realTokens + SplitTotal(c, amounts) == c.realTokens
      && (NonZero(amounts) > 0 ==> e.K() > c.K())
      && (e.realTokens == 0 || e.K() <= c.K() + NonZero(amounts) * e.virtualSol)
    ensures NonZero(amounts) == 0 <==> Sum(amounts) == 0
    ensures NonZero(amounts) == 0 ==> SplitTotal(c, amounts) == 0 && Run(c, Buys(amounts)) == Some(c)
    decreases |amounts|
  {
    hide Step, Curve.K;
    if amounts != [] {
      var a, rest := amounts[0], amounts[1..];
      assert Buys(amounts)[0] == Buy(a) && Buys(amounts)[1..] == Buys(rest);
      var d := Step(c, Buy(a)).value;
      BuyMoves(c, a);
      BuysLand(d, rest);
      StepOvershoot(c, a);
      var e, k := Run(d, Buys(rest)).value, NonZero(rest);
      OvershootAdds(k, d.virtualSol, e.virtualSol, if a > 0 then 1 else 0);
    }
  }

  lemma OvershootAdds(k: nat, d: nat, e: nat, step: nat)
    requires d <= e && step <= 1
    ensures k * e + (if step == 1 then d else 0) <= (k + step) * e
  {
  }

  /** Splitting an order never helps, and into k purchases costs at most k - 1 token units. */
  lemma SplittingNeverHelps(c: Curve, amounts: seq<u64>)
    requires c.virtualTokens > 0 && !c.complete && Run(c, Buys(amounts)).Some?
    ensures Sum(amounts) <= U64_MAX && c.GetBuyPrice(Sum(amounts)).Ok?
    ensures SplitTotal(c, amounts) <= c.GetBuyPrice(Sum(amounts)).value
    ensures c.GetBuyPrice(Sum(amounts)).value
      <= SplitTotal(c, amounts) + (if NonZero(amounts) == 0 then 0 else NonZero(amounts) - 1)
  {
    hide Step, Run, SplitTotal, Buys, Sum, NonZero, Curve.GetBuyPrice, Curve.K;
    BuysLand(c, amounts);
    var e, total, k, sum := Run(c, Buys(amounts)).value, SplitTotal(c, amounts), NonZero(amounts), Sum(amounts);
    if k > 0 {
      BuyQuoteIsLargestSafePayout(c, sum, total);
      BuyQuoteIsLargestSafePayout(c, sum, c.GetBuyPrice(sum).value);
      ProductOf(e);
      if e.realTokens > 0 && total + k <= c.virtualTokens {
        BuyQuoteIsLargestSafePayout(c, sum, total + k);
        assert e.virtualSol * (e.virtualTokens - k) == e.virtualSol * e.virtualTokens - k * e.virtualSol;
      }
    } else {
      QuoteEdges(c, 0, 0);
    }
  }

  lemma ProductOf(c: Curve)
    ensures c.K() == c.virtualSol * c.virtualTokens
  {
  }

  // ----- splitting a sale -----

  function Sales(amounts: seq<u64>): (r: seq<Trade>)
    ensures |r| == |amounts|
  {
    if amounts == [] then [] else [Sell(amounts[0])] + Sales(amounts[1..])
  }

  /** A sale overshoots the old product by less than one lamport's worth. */
  lemma SaleOvershoot(c: Curve, a: u64)
    requires !c.complete && Step(c, Sell(a)).Some?
    ensures var d := Step(c, Sell(a)).value;
      && !d.complete
      && d.virtualTokens == c.virtualTokens + a
      && d.virtualSol <= c.virtualSol
      && d.K() >= c.K()
      && (a == 0 ==> d == c)
      && (a > 0 ==> d.K() < c.K() + d.virtualTokens)
  {
    hide SolForTokens;
    var d := Step(c, Sell(a)).value;
    if a > 0 {
      var g := c.GetSellPrice(a, 0).value;
      SellQuoteIsLargestSafePayout(c, a, g);
      if g < c.virtualSol {
        SellQuoteIsLargestSafePayout(c, a, g + 1);
        OneLess(c.virtualSol - g, c.virtualTokens + a);
      }
    }
  }

  lemma OneLess(x: nat, y: nat)
    requires x > 0
    ensures (x - 1) * y == x * y - y
  {
  }

  /** Where a run of sales ends, and how far above the old product rounding can carry it. */
  lemma {:induction false} SalesLand(c: Curve, amounts: seq<u64>)
    requires !c.complete && Run(c, Sales(amounts)).Some?
    ensures var e := Run(c, Sales(amounts)).value;
      && e.virtualTokens == c.virtualTokens + Sum(amounts)
      && e.virtualSol <= c.virtualSol
      && e.K() >= c.K()
      && (NonZero(amounts) > 0 ==> e.K() < c.K() + NonZero(amounts) * e.virtualTokens)
    ensures NonZero(amounts) == 0 <==> Sum(amounts) == 0
    ensures NonZero(amounts) == 0 ==> Run(c, Sales(amounts)) == Some(c)
    decreases |amounts|
  {
    hide Step, Curve.K;
    if amounts != [] {
      var a, rest := amounts[0], amounts[1..];
      assert Sales(amounts)[0] == Sell(a) && Sales(amounts)[1..] == Sales(rest);
      var d := Step(c, Sell(a)).value;
      SaleOvershoot(c, a);
      SalesLand(d, rest);
      var e, k := Run(d, Sales(rest)).value, NonZero(rest);
      OvershootAdds(k, d.virtualTokens, e.virtualTokens, if a > 0 then 1 else 0);
    }
  }

  /** Splitting a sale never helps either, and into k sales costs at most k - 1 lamports. */
  lemma SplittingASaleNeverHelps(c: Curve, amounts: seq<u64>)
    requires !c.complete && Run(c, Sales(amounts)).Some?
    ensures Sum(amounts) <= U64_MAX && c.GetSellPrice(Sum(amounts), 0).Ok?
    ensures var paid := c.virtualSol - Run(c, Sales(amounts)).value.virtualSol;
      && 0 <= paid <= c.GetSellPrice(Sum(amounts), 0).value
      && c.GetSellPrice(Sum(amounts), 0).value <= paid + (if NonZero(amounts) == 0 then 0 else NonZero(amounts) - 1)
  {
    hide Step, Run, Sales, Sum, NonZero, Curve.GetSellPrice, Curve.K;
    SalesLand(c, amounts);
    var e, k, sum := Run(c, Sales(amounts)).value, NonZero(amounts), Sum(amounts);
    var paid := c.virtualSol - e.virtualSol;
    if k > 0 {
      SellQuoteIsLargestSafePayout(c, sum, paid);
      ProductOf(e);
      if paid + k <= c.virtualSol {
        SellQuoteIsLargestSafePayout(c, sum, paid + k);
        assert (e.virtualSol - k) * e.virtualTokens == e.virtualSol * e.virtualTokens - k * e.virtualTokens;
      }
    } else {
      QuoteEdges(c, 0, 0);
    }
  }
}
