/** The fee table of the parallel submission: which fees each provider uses for each kind of trade.
    A pair of provider and trade holds either one normal entry or any of the low-tip and high-tip ones. */
module GasFee {
  import opened MachineInts

  datatype SwqosType =
    | Jito | NextBlock | ZeroSlot | Temporal | Bloxroute | Node1 | FlashBlock | BlockRazor | Astralane
    | Stellium | Lightspeed | Soyas | Speedlanding | Helius | Default

  const PROVIDERS: seq<SwqosType> :=
    [Jito, NextBlock, ZeroSlot, Temporal, Bloxroute, Node1, FlashBlock, BlockRazor, Astralane,
     Stellium, Lightspeed, Soyas, Speedlanding, Helius, Default]

  datatype TradeType = Create | CreateAndBuy | Buy | Sell

  datatype StrategyType = Normal | LowTipHighCuPrice | HighTipLowCuPrice

  const STRATEGY_TYPES: seq<StrategyType> := [Normal, LowTipHighCuPrice, HighTipLowCuPrice]

  type u32 = x: nat | x <= 0xFFFF_FFFF

  /** Compute-unit limit and price, and the tip in SOL. */
  datatype Fee = Fee(cuLimit: u32, cuPrice: u64, tip: real)

  datatype Key = Key(provider: SwqosType, trade: TradeType, strategy: StrategyType)

  type Table = map<Key, Fee>

  lemma ProvidersAreAll(p: SwqosType)
    ensures p in PROVIDERS
  {
    match p
    case Jito => assert PROVIDERS[0] == p;
    case NextBlock => assert PROVIDERS[1] == p;
    case ZeroSlot => assert PROVIDERS[2] == p;
    case Temporal => assert PROVIDERS[3] == p;
    case Bloxroute => assert PROVIDERS[4] == p;
    case Node1 => assert PROVIDERS[5] == p;
    case FlashBlock => assert PROVIDERS[6] == p;
    case BlockRazor => assert PROVIDERS[7] == p;
    case Astralane => assert PROVIDERS[8] == p;
    case Stellium => assert PROVIDERS[9] == p;
    case Lightspeed => assert PROVIDERS[10] == p;
    case Soyas => assert PROVIDERS[11] == p;
    case Speedlanding => assert PROVIDERS[12] == p;
    case Helius => assert PROVIDERS[13] == p;
    case Default => assert PROVIDERS[14] == p;
  }

  // ----- one pair of provider and trade -----

  /** What a provider uses for a trade. */
  datatype Entries = Entries(normal: Option<Fee>, lowTip: Option<Fee>, highTip: Option<Fee>)

  const NO_ENTRIES := Entries(None, None, None)

  function Lookup(table: Table, key: Key): Option<Fee> {
    if key in table then Some(table[key]) else None
  }

  function EntriesOf(table: Table, provider: SwqosType, trade: TradeType): Entries {
    Entries(Lookup(table, Key(provider, trade, Normal)),
            Lookup(table, Key(provider, trade, LowTipHighCuPrice)),
            Lookup(table, Key(provider, trade, HighTipLowCuPrice)))
  }

  function With(e: Entries, strategy: StrategyType, fee: Option<Fee>): Entries {
    match strategy
    case Normal => e.(normal := fee)
    case LowTipHighCuPrice => e.(lowTip := fee)
    case HighTipLowCuPrice => e.(highTip := fee)
  }

  /** Normal excludes the other two. */
  predicate Exclusive(e: Entries) {
    e.normal.Some? ==> e.lowTip.None? && e.highTip.None?
  }

  function Count(e: Entries): nat {
    Size(e.normal) + Size(e.lowTip) + Size(e.highTip)
  }

  function Size(f: Option<Fee>): nat {
    if f.Some? then 1 else 0
  }

  /** A change to one field of a fee. */
  datatype Change = TipTo(tip: real) | CuPriceTo(cuPrice: u64)

  function Changed(fee: Fee, change: Change): Fee {
    match change
    case TipTo(tip) => fee.(tip := tip)
    case CuPriceTo(cuPrice) => fee.(cuPrice := cuPrice)
  }

  function MapFee(fee: Option<Fee>, change: Change): Option<Fee> {
    if fee.Some? then Some(Changed(fee.value, change)) else None
  }

  function Map(e: Entries, change: Change): Entries {
    Entries(MapFee(e.normal, change), MapFee(e.lowTip, change), MapFee(e.highTip, change))
  }

  /** The public calls. */
  datatype Call =
    | Set(provider: SwqosType, trade: TradeType, strategy: StrategyType, fee: Fee)
    | Del(provider: SwqosType, trade: TradeType, strategy: StrategyType)
    | DelAll(provider: SwqosType, trade: TradeType)
    | SetGlobal(buy: Fee, sell: Fee)
    | SetHighLow(providers: seq<SwqosType>, trade: TradeType, low: Fee, high: Fee)
    | SetHighLowOne(provider: SwqosType, trade: TradeType, low: Fee, high: Fee)
    | SetNormal(providers: seq<SwqosType>, buy: Fee, sell: Fee)
    | Clear
    | Update(trade: TradeType, change: Change)

  /** What a call leaves to the pair `(p, t)` that held `e`: the specification of every method below. */
  function After(call: Call, p: SwqosType, t: TradeType, e: Entries): Entries {
    match call
    case Set(provider, trade, strategy, fee) =>
      if p != provider || t != trade then e
      else if strategy.Normal? then Entries(Some(fee), None, None)
      else With(e.(normal := None), strategy, Some(fee))
    case Del(provider, trade, strategy) => if p == provider && t == trade then With(e, strategy, None) else e
    case DelAll(provider, trade) => if p == provider && t == trade then NO_ENTRIES else e
    case SetGlobal(buy, sell) =>
      if t.Buy? then Entries(Some(if p.Default? then buy.(tip := 0.0) else buy), None, None)
      else if t.Sell? then Entries(Some(if p.Default? then sell.(tip := 0.0) else sell), None, None)
      else e
    case SetHighLow(providers, trade, low, high) =>
      if p in providers && t == trade then Entries(None, Some(low), Some(high)) else e
    case SetHighLowOne(provider, trade, low, high) =>
      if p == provider && t == trade && !p.Default? then Entries(None, Some(low), Some(high)) else e
    case SetNormal(providers, buy, sell) =>
      if p in providers && t.Buy? then Entries(Some(buy), None, None)
      else if p in providers && t.Sell? then Entries(Some(sell), None, None)
      else e
    case Clear => NO_ENTRIES
    case Update(trade, change) => if t == trade then Map(e, change) else e
  }

  ghost predicate Effect(call: Call, before: Table, after: Table) {
    forall p, t :: EntriesOf(after, p, t) == After(call, p, t, EntriesOf(before, p, t))
  }

  // ----- the same, read off the table -----

  predicate Holds(table: Table, key: Key, fee: Fee) {
    key in table && table[key] == fee
  }

  predicate Same(before: Table, after: Table, key: Key) {
    if key in before then Holds(after, key, before[key]) else key !in after
  }

  /** A pair's entries become one normal entry. */
  predicate OnlyNormal(after: Table, key: Key, fee: Fee) {
    if key.strategy == Normal then Holds(after, key, fee) else key !in after
  }

  /** A pair's entries become a low-tip and a high-tip one. */
  predicate OnlyHighLow(after: Table, key: Key, low: Fee, high: Fee) {
    match key.strategy
    case Normal => key !in after
    case LowTipHighCuPrice => Holds(after, key, low)
    case HighTipLowCuPrice => Holds(after, key, high)
  }

  /** What a call does to one entry of the table. */
  predicate OnKey(call: Call, before: Table, after: Table, key: Key) {
    match call
    case Set(p, t, strategy, fee) =>
      if key == Key(p, t, strategy) then Holds(after, key, fee)
      else if key.provider == p && key.trade == t && (strategy == Normal || key.strategy == Normal) then key !in after
      else Same(before, after, key)
    case Del(p, t, strategy) =>
      if key == Key(p, t, strategy) then key !in after else Same(before, after, key)
    case DelAll(p, t) =>
      if key.provider == p && key.trade == t then key !in after else Same(before, after, key)
    case SetGlobal(buy, sell) =>
      if key.trade == Buy then
        OnlyNormal(after, key, Fee(buy.cuLimit, buy.cuPrice, if key.provider == Default then 0.0 else buy.tip))
      else if key.trade == Sell then
        OnlyNormal(after, key, Fee(sell.cuLimit, sell.cuPrice, if key.provider == Default then 0.0 else sell.tip))
      else Same(before, after, key)
    case SetHighLow(providers, t, low, high) =>
      if key.provider in providers && key.trade == t then OnlyHighLow(after, key, low, high)
      else Same(before, after, key)
    case SetHighLowOne(p, t, low, high) =>
      if key.provider == p && key.trade == t && p != Default then OnlyHighLow(after, key, low, high)
      else Same(before, after, key)
    case SetNormal(providers, buy, sell) =>
      if key.provider !in providers || key.trade !in {Buy, Sell} then Same(before, after, key)
      else OnlyNormal(after, key, if key.trade == Buy then buy else sell)
    case Clear => key !in after
    case Update(t, change) =>
      if key !in before || key.trade != t then Same(before, after, key)
      else
        var Fee(cuLimit, cuPrice, tip) := before[key];
        match change
        case TipTo(newTip) => Holds(after, key, Fee(cuLimit, cuPrice, newTip))
        case CuPriceTo(newCuPrice) => Holds(after, key, Fee(cuLimit, newCuPrice, tip))
  }

  /** One entry as the pair's new entries have it. */
  predicate AsAfter(call: Call, before: Table, after: Table, key: Key) {
    var e := After(call, key.provider, key.trade, EntriesOf(before, key.provider, key.trade));
    Lookup(after, key) ==
      match key.strategy
      case Normal => e.normal
      case LowTipHighCuPrice => e.lowTip
      case HighTipLowCuPrice => e.highTip
  }

  lemma KeyByKey(call: Call, before: Table, after: Table, key: Key)
    ensures AsAfter(call, before, after, key) <==> OnKey(call, before, after, key)
  {
  }

  /** A call has its effect exactly when it does this to every entry of the table. */
  lemma EffectIsOnTable(call: Call, before: Table, after: Table)
    ensures Effect(call, before, after) <==> forall key :: OnKey(call, before, after, key)
  {
    hide After, OnKey, AsAfter;
    forall key ensures AsAfter(call, before, after, key) <==> OnKey(call, before, after, key) {
      KeyByKey(call, before, after, key);
    }
    EffectByKey(call, before, after);
  }

  lemma EffectByKey(call: Call, before: Table, after: Table)
    ensures Effect(call, before, after) <==> forall key :: AsAfter(call, before, after, key)
  {
    hide After;
    if forall key :: AsAfter(call, before, after, key) {
      forall p, t ensures EntriesOf(after, p, t) == After(call, p, t, EntriesOf(before, p, t)) {
        assert AsAfter(call, before, after, Key(p, t, Normal));
        assert AsAfter(call, before, after, Key(p, t, LowTipHighCuPrice));
        assert AsAfter(call, before, after, Key(p, t, HighTipLowCuPrice));
      }
    }
  }

  ghost predicate AllExclusive(table: Table) {
    forall p, t :: Exclusive(EntriesOf(table, p, t))
  }

  /** One call after another, seen by one pair. */
  function AfterAll(calls: seq<Call>, p: SwqosType, t: TradeType, e: Entries): Entries {
    if calls == [] then e
    else AfterAll(calls[1..], p, t, After(calls[0], p, t, e))
  }

  /** No sequence of completed calls breaks exclusivity, so no pair ever holds more than two entries. */
  lemma {:induction false} CallsKeepExclusive(calls: seq<Call>, p: SwqosType, t: TradeType, e: Entries)
    requires Exclusive(e)
    ensures Exclusive(AfterAll(calls, p, t, e))
    ensures Count(AfterAll(calls, p, t, e)) <= 2
  {
    if calls != [] {
      CallsKeepExclusive(calls[1..], p, t, After(calls[0], p, t, e));
    }
  }

  /** What the pair `(p, t)` holds once `key` alone has been given `fee`, or removed. */
  function Replaced(table: Table, key: Key, fee: Option<Fee>, p: SwqosType, t: TradeType): Entries {
    var e := EntriesOf(table, p, t);
    if p == key.provider && t == key.trade then With(e, key.strategy, fee) else e
  }

  lemma Inserting(table: Table, key: Key, fee: Fee)
    ensures forall p, t :: EntriesOf(table[key := fee], p, t) == Replaced(table, key, Some(fee), p, t)
  {
  }

  lemma Removing(table: Table, key: Key)
    ensures forall p, t :: EntriesOf(table - {key}, p, t) == Replaced(table, key, None, p, t)
  {
  }

  lemma Updating(before: Table, after: Table, trade: TradeType, change: Change)
    requires before.Keys == after.Keys
    requires forall key | key in after && key.trade != trade :: after[key] == before[key]
    requires forall key | key in after && key.trade == trade :: after[key] == Changed(before[key], change)
    ensures Effect(Update(trade, change), before, after)
  {
    hide Changed;
    assert forall key :: key in before <==> key in after;
  }

  /** Whatever completed calls lead from the empty table, the table is exclusive. */
  lemma FeesStayExclusive(calls: seq<Call>, tables: seq<Table>)
    requires |tables| == |calls| + 1 && tables[0] == map[]
    requires forall i :: 0 <= i < |calls| ==> Effect(calls[i], tables[i], tables[i + 1])
    ensures AllExclusive(tables[|calls|])
  {
    hide Exclusive;
    forall p, t ensures Exclusive(EntriesOf(tables[|calls|], p, t)) {
      CallsCompose(calls, tables, p, t);
      NothingIsExclusive(p, t);
      CallsKeepExclusive(calls, p, t, EntriesOf(map[], p, t));
    }
  }

  lemma NothingIsExclusive(p: SwqosType, t: TradeType)
    ensures Exclusive(EntriesOf(map[], p, t))
  {
  }

  lemma {:induction false} CallsCompose(calls: seq<Call>, tables: seq<Table>, p: SwqosType, t: TradeType)
    requires |tables| == |calls| + 1
    requires forall i :: 0 <= i < |calls| ==> Effect(calls[i], tables[i], tables[i + 1])
    ensures EntriesOf(tables[|calls|], p, t) == AfterAll(calls, p, t, EntriesOf(tables[0], p, t))
    decreases |calls|
  {
    hide After, EntriesOf;
    if calls != [] {
      assert Effect(calls[0], tables[0], tables[1]);
      forall i | 0 <= i < |calls[1..]| ensures Effect(calls[1..][i], tables[1..][i], tables[1..][i + 1]) {
        assert Effect(calls[i + 1], tables[i + 1], tables[i + 2]);
      }
      CallsCompose(calls[1..], tables[1..], p, t);
    }
  }

  // ----- the listing -----

  datatype Config = Config(provider: SwqosType, strategy: StrategyType, fee: Fee)

  function Rank(k: StrategyType): nat {
    match k
    case Normal => 0
    case LowTipHighCuPrice => 1
    case HighTipLowCuPrice => 2
  }

  ghost predicate Stored(table: Table, trade: TradeType, c: Config) {
    Key(c.provider, trade, c.strategy) in table && table[Key(c.provider, trade, c.strategy)] == c.fee
  }

  /** The entries of one provider stand in rank order, so no entry stands twice. */
  ghost predicate InRankOrder(listing: seq<Config>) {
    forall i, j :: 0 <= i < j < |listing| ==>
      listing[i].provider != listing[j].provider || Rank(listing[i].strategy) < Rank(listing[j].strategy)
  }

  /** Exactly the stored entries of the trade, each once. */
  ghost predicate IsListing(table: Table, trade: TradeType, listing: seq<Config>) {
    (forall c :: c in listing <==> Stored(table, trade, c)) && InRankOrder(listing)
  }

  /** The same for some providers only. */
  ghost predicate ListsOf(table: Table, trade: TradeType, providers: set<SwqosType>, listing: seq<Config>) {
    (forall c :: c in listing <==> Stored(table, trade, c) && c.provider in providers) && InRankOrder(listing)
  }

  // ----- setting the fees of every provider -----

  /** The first `i` providers, except the default one, have the new fees; the others are as before. */
  ghost predicate GlobalSoFar(before: Table, now: Table, i: nat, buy: Fee, sell: Fee)
    requires i <= |PROVIDERS|
  {
    forall p, t :: EntriesOf(now, p, t) ==
      if p in PROVIDERS[..i] && p != Default then After(SetGlobal(buy, sell), p, t, EntriesOf(before, p, t))
      else EntriesOf(before, p, t)
  }

  lemma GlobalStarts(before: Table, buy: Fee, sell: Fee)
    ensures GlobalSoFar(before, before, 0, buy, sell)
  {
  }

  lemma GlobalSkips(before: Table, now: Table, i: nat, buy: Fee, sell: Fee)
    requires i < |PROVIDERS| && PROVIDERS[i] == Default && GlobalSoFar(before, now, i, buy, sell)
    ensures GlobalSoFar(before, now, i + 1, buy, sell)
  {
    hide EntriesOf, After;
    assert PROVIDERS[..i + 1] == PROVIDERS[..i] + [PROVIDERS[i]];
  }

  lemma GlobalGoesOn(before: Table, now: Table, half: Table, after: Table, i: nat, buy: Fee, sell: Fee)
    requires i < |PROVIDERS| && PROVIDERS[i] != Default && GlobalSoFar(before, now, i, buy, sell)
    requires Effect(Set(PROVIDERS[i], Buy, Normal, buy), now, half)
    requires Effect(Set(PROVIDERS[i], Sell, Normal, sell), half, after)
    ensures GlobalSoFar(before, after, i + 1, buy, sell)
  {
    hide EntriesOf;
    assert PROVIDERS[..i + 1] == PROVIDERS[..i] + [PROVIDERS[i]];
  }

  lemma GlobalEnds(before: Table, now: Table, half: Table, after: Table, buy: Fee, sell: Fee)
    requires GlobalSoFar(before, now, |PROVIDERS|, buy, sell)
    requires Effect(Set(Default, Buy, Normal, buy.(tip := 0.0)), now, half)
    requires Effect(Set(Default, Sell, Normal, sell.(tip := 0.0)), half, after)
    ensures Effect(SetGlobal(buy, sell), before, after)
  {
    hide EntriesOf;
    assert PROVIDERS[..|PROVIDERS|] == PROVIDERS;
    forall p: SwqosType ensures p in PROVIDERS { ProvidersAreAll(p); }
  }

  class GasFeeStrategy {
    var strategies: Table

    constructor ()
      ensures strategies == map[]
    {
      strategies := map[];
    }

    method Set(provider: SwqosType, trade: TradeType, strategy: StrategyType, cuLimit: u32, cuPrice: u64, tip: real)
      modifies this
      ensures Effect(Call.Set(provider, trade, strategy, Fee(cuLimit, cuPrice, tip)), old(strategies), strategies)
    {
      hide EntriesOf;
      if strategy == Normal {
        Del(provider, trade, HighTipLowCuPrice);
        Del(provider, trade, LowTipHighCuPrice);
      } else {
        Del(provider, trade, Normal);
      }
      var key, fee := Key(provider, trade, strategy), Fee(cuLimit, cuPrice, tip);
      ghost var cleared := strategies;
      Inserting(cleared, key, fee);
      strategies := strategies[key := fee];
      assert forall p, t :: EntriesOf(strategies, p, t) == Replaced(cleared, key, Some(fee), p, t);
    }

    method DelAll(provider: SwqosType, trade: TradeType)
      modifies this
      ensures Effect(Call.DelAll(provider, trade), old(strategies), strategies)
    {
      hide EntriesOf;
      Removing(strategies, Key(provider, trade, Normal));
      strategies := strategies - {Key(provider, trade, Normal)};
      Removing(strategies, Key(provider, trade, LowTipHighCuPrice));
      strategies := strategies - {Key(provider, trade, LowTipHighCuPrice)};
      Removing(strategies, Key(provider, trade, HighTipLowCuPrice));
      strategies := strategies - {Key(provider, trade, HighTipLowCuPrice)};
    }

    method Del(provider: SwqosType, trade: TradeType, strategy: StrategyType)
      modifies this
      ensures Effect(Call.Del(provider, trade, strategy), old(strategies), strategies)
    {
      hide EntriesOf;
      Removing(strategies, Key(provider, trade, strategy));
      strategies := strategies - {Key(provider, trade, strategy)};
    }

    method Clear()
      modifies this
      ensures Effect(Call.Clear, old(strategies), strategies)
    {
      strategies := map[];
    }

    method SetHighLowFeeStrategy(provider: SwqosType, trade: TradeType, cuLimit: u32,
                                 lowCuPrice: u64, highCuPrice: u64, lowTip: real, highTip: real)
      modifies this
      ensures Effect(SetHighLowOne(provider, trade,
                                   Fee(cuLimit, highCuPrice, lowTip), Fee(cuLimit, lowCuPrice, highTip)),
                     old(strategies), strategies)
    {
      hide EntriesOf;
      if provider == Default {
        return;
      }
      Del(provider, trade, Normal);
      Set(provider, trade, LowTipHighCuPrice, cuLimit, highCuPrice, lowTip);
      Set(provider, trade, HighTipLowCuPrice, cuLimit, lowCuPrice, highTip);
    }

    method SetNormalFeeStrategy(provider: SwqosType, cuLimit: u32, cuPrice: u64, buyTip: real, sellTip: real)
      modifies this
      ensures Effect(SetNormal([provider], Fee(cuLimit, cuPrice, buyTip), Fee(cuLimit, cuPrice, sellTip)),
                     old(strategies), strategies)
    {
      hide EntriesOf;
      DelAll(provider, Buy);
      DelAll(provider, Sell);
      Set(provider, Buy, Normal, cuLimit, cuPrice, buyTip);
      Set(provider, Sell, Normal, cuLimit, cuPrice, sellTip);
    }

    method SetHighLowFeeStrategies(providers: seq<SwqosType>, trade: TradeType, cuLimit: u32,
                                   lowCuPrice: u64, highCuPrice: u64, lowTip: real, highTip: real)
      modifies this
      ensures Effect(SetHighLow(providers, trade, Fee(cuLimit, highCuPrice, lowTip), Fee(cuLimit, lowCuPrice, highTip)),
                     old(strategies), strategies)
    {
      hide EntriesOf;
      var low, high := Fee(cuLimit, highCuPrice, lowTip), Fee(cuLimit, lowCuPrice, highTip);
      for i := 0 to |providers|
        invariant Effect(SetHighLow(providers[..i], trade, low, high), old(strategies), strategies)
      {
        Del(providers[i], trade, Normal);
        Set(providers[i], trade, LowTipHighCuPrice, cuLimit, highCuPrice, lowTip);
        Set(providers[i], trade, HighTipLowCuPrice, cuLimit, lowCuPrice, highTip);
      }
      assert providers[..|providers|] == providers;
    }

    method SetNormalFeeStrategies(providers: seq<SwqosType>, cuLimit: u32, cuPrice: u64, buyTip: real, sellTip: real)
      modifies this
      ensures Effect(SetNormal(providers, Fee(cuLimit, cuPrice, buyTip), Fee(cuLimit, cuPrice, sellTip)),
                     old(strategies), strategies)
    {
      hide EntriesOf;
      var buy, sell := Fee(cuLimit, cuPrice, buyTip), Fee(cuLimit, cuPrice, sellTip);
      for i := 0 to |providers|
        invariant Effect(SetNormal(providers[..i], buy, sell), old(strategies), strategies)
      {
        DelAll(providers[i], Buy);
        DelAll(providers[i], Sell);
        Set(providers[i], Buy, Normal, cuLimit, cuPrice, buyTip);
        Set(providers[i], Sell, Normal, cuLimit, cuPrice, sellTip);
      }
      assert providers[..|providers|] == providers;
    }

    method SetGlobalFeeStrategy(buyCuLimit: u32, sellCuLimit: u32, buyCuPrice: u64, sellCuPrice: u64,
                                buyTip: real, sellTip: real)
      modifies this
      ensures Effect(SetGlobal(Fee(buyCuLimit, buyCuPrice, buyTip), Fee(sellCuLimit, sellCuPrice, sellTip)),
                     old(strategies), strategies)
    {
      hide EntriesOf, Effect, GlobalSoFar;
      var buy, sell := Fee(buyCuLimit, buyCuPrice, buyTip), Fee(sellCuLimit, sellCuPrice, sellTip);
      ghost var before := strategies;
      GlobalStarts(before, buy, sell);
      for i := 0 to |PROVIDERS|
        invariant GlobalSoFar(before, strategies, i, buy, sell)
      {
        var provider := PROVIDERS[i];
        ghost var now := strategies;
        if provider == Default {
          GlobalSkips(before, now, i, buy, sell);
          continue;
        }
        Set(provider, Buy, Normal, buyCuLimit, buyCuPrice, buyTip);
        ghost var half := strategies;
        Set(provider, Sell, Normal, sellCuLimit, sellCuPrice, sellTip);
        GlobalGoesOn(before, now, half, strategies, i, buy, sell);
      }
      ghost var now := strategies;
      Set(Default, Buy, Normal, buyCuLimit, buyCuPrice, 0.0);
      ghost var half := strategies;
      Set(Default, Sell, Normal, sellCuLimit, sellCuPrice, 0.0);
      GlobalEnds(before, now, half, strategies, buy, sell);
    }

    /** The four `update_` calls: one field of every entry of a trade. */
    method UpdateAll(trade: TradeType, change: Change)
      modifies this
      ensures Effect(Update(trade, change), old(strategies), strategies)
    {
      hide Effect, Changed;
      var todo := strategies.Keys;
      while todo != {}
        invariant todo <= strategies.Keys == old(strategies).Keys
        invariant forall key | key in strategies && (key in todo || key.trade != trade) ::
          strategies[key] == old(strategies)[key]
        invariant forall key | key in strategies && key !in todo && key.trade == trade ::
          strategies[key] == Changed(old(strategies)[key], change)
        decreases |todo|
      {
        var key :| key in todo;
        todo := todo - {key};
        if key.trade == trade {
          strategies := strategies[key := Changed(strategies[key], change)];
        }
      }
      Updating(old(strategies), strategies, trade, change);
    }

    method ProvidersOf(trade: TradeType) returns (providers: set<SwqosType>)
      ensures forall key :: key in strategies && key.trade == trade ==> key.provider in providers
    {
      providers := {};
      var keys := strategies.Keys;
      while keys != {}
        invariant keys <= strategies.Keys
        invariant forall key :: key in strategies && key !in keys && key.trade == trade ==> key.provider in providers
        decreases |keys|
      {
        var key :| key in keys;
        keys := keys - {key};
        if key.trade == trade {
          providers := providers + {key.provider};
        }
      }
    }

    /** Lists the stored fees of a trade; providers come in no particular order. */
    method GetStrategies(trade: TradeType) returns (result: seq<Config>)
      ensures IsListing(strategies, trade, result)
    {
      result := [];
      var providers := ProvidersOf(trade);
      ghost var done: set<SwqosType> := {};
      ghost var all := providers;
      while providers != {}
        invariant providers + done == all && providers !! done
        invariant ListsOf(strategies, trade, done, result)
        decreases |providers|
      {
        var provider :| provider in providers;
        providers := providers - {provider};
        result := AppendProvider(trade, provider, done, result);
        done := done + {provider};
      }
    }

    /** The inner loop of the listing, over the strategy types of one provider. */
    method AppendProvider(trade: TradeType, provider: SwqosType, ghost done: set<SwqosType>, before: seq<Config>)
      returns (result: seq<Config>)
      requires provider !in done && ListsOf(strategies, trade, done, before)
      ensures ListsOf(strategies, trade, done + {provider}, result)
    {
      result := before;
      for i := 0 to |STRATEGY_TYPES|
        invariant forall c :: c in result <==>
          Stored(strategies, trade, c) && (c.provider in done || (c.provider == provider && Rank(c.strategy) < i))
        invariant InRankOrder(result)
      {
        var strategy := STRATEGY_TYPES[i];
        if Key(provider, trade, strategy) in strategies {
          result := result + [Config(provider, strategy, strategies[Key(provider, trade, strategy)])];
        }
      }
    }
  }
}
