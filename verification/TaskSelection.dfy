/** Which transactions a trade submits: one per client and stored fee entry of that client's provider,
    after the tip filter, and the refusals before anything is sent. */
module TaskSelection {
  import opened MachineInts
  import opened GasFee

  datatype Client = Client(provider: SwqosType, minTip: real)

  datatype Task = Task(client: nat, config: Config)

  /** How the trade was asked for. */
  datatype Request = Request(isBuy: bool, withTip: bool, hasNonce: bool, checkMinTip: bool)

  datatype Refusal = NoClients | NoDefaultClient | NoConfigs | NonceRequired

  function TradeOf(r: Request): TradeType {
    if r.isBuy then Buy else Sell
  }

  /** Without tips only the default provider is used. */
  predicate Used(client: Client, r: Request) {
    r.withTip || client.provider.Default?
  }

  /** The two filters over the listing. */
  predicate Passes(c: Config, client: Client, r: Request) {
    && c.provider == client.provider
    && (r.withTip && !client.provider.Default? && r.checkMinTip ==> c.fee.tip >= client.minTip)
  }

  function Select(listing: seq<Config>, client: Client, r: Request): seq<Config> {
    if listing == [] then []
    else
      (if Passes(listing[0], client, r) then [listing[0]] else []) + Select(listing[1..], client, r)
  }

  function Tagged(i: nat, configs: seq<Config>): (tasks: seq<Task>)
    ensures |tasks| == |configs| && forall k :: 0 <= k < |tasks| ==> tasks[k] == Task(i, configs[k])
  {
    if configs == [] then [] else [Task(i, configs[0])] + Tagged(i, configs[1..])
  }

  /** The tasks of the clients from `i` on. Each client asks for a listing of its own, and two
      listings of one table may order the providers differently. */
  function TasksFrom(clients: seq<Client>, listings: seq<seq<Config>>, i: nat, r: Request): seq<Task>
    requires |listings| == |clients|
    decreases |clients| - i
  {
    if i >= |clients| then []
    else
      (if Used(clients[i], r) then Tagged(i, Select(listings[i], clients[i], r)) else [])
      + TasksFrom(clients, listings, i + 1, r)
  }

  /** The checks of `execute_parallel` up to the first spawned task. */
  function Prepare(clients: seq<Client>, listings: seq<seq<Config>>, r: Request): Result<seq<Task>, Refusal>
    requires |listings| == |clients|
  {
    if clients == [] then Err(NoClients)
    else if !r.withTip && forall i :: 0 <= i < |clients| ==> !clients[i].provider.Default? then Err(NoDefaultClient)
    else
      var tasks := TasksFrom(clients, listings, 0, r);
      if tasks == [] then Err(NoConfigs)
      else if r.isBuy && |tasks| > 1 && !r.hasNonce then Err(NonceRequired)
      else Ok(tasks)
  }

  // ----- one client -----

  ghost predicate RankSorted(configs: seq<Config>) {
    forall i, j :: 0 <= i < j < |configs| ==> Rank(configs[i].strategy) < Rank(configs[j].strategy)
  }

  /** The selection keeps just what passes, in rank order. */
  lemma {:induction false} SelectKeeps(listing: seq<Config>, client: Client, r: Request)
    requires InRankOrder(listing)
    ensures forall c :: c in Select(listing, client, r) <==> c in listing && Passes(c, client, r)
    ensures RankSorted(Select(listing, client, r))
  {
    if listing != [] {
      var rest := Select(listing[1..], client, r);
      assert InRankOrder(listing[1..]);
      SelectKeeps(listing[1..], client, r);
      assert listing == [listing[0]] + listing[1..];
      if Passes(listing[0], client, r) {
        forall k | 0 <= k < |rest| ensures Rank(listing[0].strategy) < Rank(rest[k].strategy) {
          assert rest[k] in rest;
          var m :| 0 <= m < |listing[1..]| && listing[1..][m] == rest[k];
          assert listing[m + 1] == rest[k];
        }
      }
    }
  }

  /** The last entry outranks the others. */
  lemma LastIsTop(configs: seq<Config>, c: Config)
    requires RankSorted(configs) && configs != []
    ensures c in configs ==> c == configs[|configs| - 1] || Rank(c.strategy) < Rank(configs[|configs| - 1].strategy)
    ensures c in configs[..|configs| - 1] <==> c in configs && c != configs[|configs| - 1]
  {
    var last := |configs| - 1;
    assert configs == configs[..last] + [configs[last]];
  }

  /** Two rank-sorted lists of the same entries are equal. */
  lemma {:induction false} SortedIsUnique(a: seq<Config>, b: seq<Config>)
    requires RankSorted(a) && RankSorted(b) && forall c :: c in a <==> c in b
    ensures a == b
    decreases |a|
  {
    assert a != [] ==> a[0] in a;
    assert b != [] ==> b[0] in b;
    if a != [] && b != [] {
      var i, j := |a| - 1, |b| - 1;
      assert RankSorted(a[..i]) && RankSorted(b[..j]);
      assert a == a[..i] + [a[i]] && b == b[..j] + [b[j]];
      hide RankSorted;
      assert a[i] in a && b[j] in b;
      LastIsTop(b, a[i]);
      LastIsTop(a, b[j]);
      forall c ensures c in a[..i] <==> c in b[..j] {
        LastIsTop(a, c);
        LastIsTop(b, c);
      }
      SortedIsUnique(a[..i], b[..j]);
    }
  }

  /** A client's tasks do not depend on the order in which the table was listed. */
  lemma SelectionIsOrderFree(table: Table, trade: TradeType, one: seq<Config>, two: seq<Config>,
                             client: Client, r: Request)
    requires IsListing(table, trade, one) && IsListing(table, trade, two)
    ensures Select(one, client, r) == Select(two, client, r)
  {
    hide Select, Stored, RankSorted;
    SelectKeeps(one, client, r);
    SelectKeeps(two, client, r);
    SortedIsUnique(Select(one, client, r), Select(two, client, r));
  }

  /** An exclusive table gives a client at most two tasks. */
  lemma SelectAtMostTwo(table: Table, trade: TradeType, listing: seq<Config>, client: Client, r: Request)
    requires IsListing(table, trade, listing) && Exclusive(EntriesOf(table, client.provider, trade))
    ensures |Select(listing, client, r)| <= 2
  {
    hide Select;
    SelectKeeps(listing, client, r);
    var s := Select(listing, client, r);
    assert |s| > 1 ==> s[0] in s && s[1] in s && Rank(s[0].strategy) < Rank(s[1].strategy);
    assert |s| > 2 ==> Rank(s[1].strategy) < Rank(s[2].strategy);
    assert |s| > 1 ==> Stored(table, trade, s[0]) && Stored(table, trade, s[1]);
  }

  // ----- all clients -----

  ghost predicate AreListings(table: Table, trade: TradeType, listings: seq<seq<Config>>) {
    forall i :: 0 <= i < |listings| ==> IsListing(table, trade, listings[i])
  }

  /** What makes a pair of client and entry a task. */
  ghost predicate Eligible(table: Table, clients: seq<Client>, r: Request, t: Task) {
    && t.client < |clients|
    && Used(clients[t.client], r)
    && Stored(table, TradeOf(r), t.config)
    && Passes(t.config, clients[t.client], r)
  }

  predicate Before(a: Task, b: Task) {
    a.client < b.client || (a.client == b.client && Rank(a.config.strategy) < Rank(b.config.strategy))
  }

  ghost predicate Ordered(tasks: seq<Task>) {
    forall i, j :: 0 <= i < j < |tasks| ==> Before(tasks[i], tasks[j])
  }

  lemma TaggedMembers(i: nat, configs: seq<Config>, t: Task)
    ensures t in Tagged(i, configs) <==> t.client == i && t.config in configs
  {
    if t.client == i && t.config in configs {
      var k :| 0 <= k < |configs| && configs[k] == t.config;
      assert Tagged(i, configs)[k] == t;
    }
  }

  /** Tasks of one client go before those of later ones. */
  lemma OrderJoins(i: nat, own: seq<Config>, rest: seq<Task>)
    requires RankSorted(own) && Ordered(rest) && forall t :: t in rest ==> i < t.client
    ensures Ordered(Tagged(i, own) + rest)
  {
    var tasks, n := Tagged(i, own) + rest, |own|;
    forall a, b | 0 <= a < b < |tasks| ensures Before(tasks[a], tasks[b]) {
      if n <= a {
        assert Before(rest[a - n], rest[b - n]);
      } else if n <= b {
        assert rest[b - n] in rest;
      }
    }
  }

  lemma {:induction false} TasksAreEligible(table: Table, clients: seq<Client>, listings: seq<seq<Config>>,
                                            i: nat, r: Request)
    requires |listings| == |clients| && AreListings(table, TradeOf(r), listings)
    ensures forall t :: t in TasksFrom(clients, listings, i, r) <==> i <= t.client && Eligible(table, clients, r, t)
    ensures Ordered(TasksFrom(clients, listings, i, r))
    decreases |clients| - i
  {
    hide Stored, Passes, Used, Select, Tagged, Ordered, RankSorted;
    if i < |clients| {
      TasksAreEligible(table, clients, listings, i + 1, r);
      assert IsListing(table, TradeOf(r), listings[i]);
      var own := Select(listings[i], clients[i], r);
      SelectKeeps(listings[i], clients[i], r);
      var rest := TasksFrom(clients, listings, i + 1, r);
      OrderJoins(i, own, rest);
      assert [] + rest == rest;
      forall t ensures t in Tagged(i, own) <==> t.client == i && t.config in own {
        TaggedMembers(i, own, t);
      }
    } else {
      NothingIsOrdered();
    }
  }

  lemma NothingIsOrdered()
    ensures Ordered([])
  {
  }

  /** Every eligible pair becomes exactly one task, and nothing else does. */
  lemma TasksAreExactlyTheEligible(table: Table, clients: seq<Client>, listings: seq<seq<Config>>, r: Request)
    requires |listings| == |clients| && AreListings(table, TradeOf(r), listings)
    ensures var tasks := TasksFrom(clients, listings, 0, r);
      && (forall t :: t in tasks <==> Eligible(table, clients, r, t))
      && (forall i, j :: 0 <= i < j < |tasks| ==> tasks[i] != tasks[j])
  {
    hide TasksFrom;
    TasksAreEligible(table, clients, listings, 0, r);
    var tasks := TasksFrom(clients, listings, 0, r);
    forall i, j | 0 <= i < j < |tasks| ensures tasks[i] != tasks[j] {
      assert Before(tasks[i], tasks[j]);
    }
  }

  /** An exclusive table bounds the number of transactions by two per client. */
  lemma {:induction false} AtMostTwoTasksPerClient(table: Table, clients: seq<Client>, listings: seq<seq<Config>>,
                                                   i: nat, r: Request)
    requires |listings| == |clients| && AreListings(table, TradeOf(r), listings) && AllExclusive(table)
    requires i <= |clients|
    ensures |TasksFrom(clients, listings, i, r)| <= 2 * (|clients| - i)
    decreases |clients| - i
  {
    hide Select, IsListing, Exclusive, EntriesOf;
    if i < |clients| {
      assert Exclusive(EntriesOf(table, clients[i].provider, TradeOf(r)));
      SelectAtMostTwo(table, TradeOf(r), listings[i], clients[i], r);
      AtMostTwoTasksPerClient(table, clients, listings, i + 1, r);
    }
  }

  // ----- what is let through -----

  ghost predicate SomeUsed(clients: seq<Client>, r: Request) {
    exists i :: 0 <= i < |clients| && Used(clients[i], r)
  }

  ghost predicate SomeEligible(table: Table, clients: seq<Client>, r: Request) {
    exists t :: Eligible(table, clients, r, t)
  }

  ghost predicate TwoEligible(table: Table, clients: seq<Client>, r: Request) {
    exists t, u :: Eligible(table, clients, r, t) && Eligible(table, clients, r, u) && t != u
  }

  /** When a trade goes ahead, and with what. */
  lemma PrepareLetsThrough(table: Table, clients: seq<Client>, listings: seq<seq<Config>>, r: Request)
    requires |listings| == |clients| && AreListings(table, TradeOf(r), listings)
    ensures var p := Prepare(clients, listings, r);
      && (p.Ok? <==> SomeEligible(table, clients, r) && !(r.isBuy && !r.hasNonce && TwoEligible(table, clients, r)))
      && (p.Ok? ==> p.value != [] && forall t :: t in p.value <==> Eligible(table, clients, r, t))
      && (p.Ok? && r.isBuy && !r.hasNonce ==> |p.value| == 1)
      && (p == Err(NoClients) <==> clients == [])
      && (p == Err(NoDefaultClient) <==>
            clients != [] && !r.withTip && forall i :: 0 <= i < |clients| ==> clients[i].provider != Default)
      && (p == Err(NoConfigs) <==>
            !SomeEligible(table, clients, r)
            && (if r.withTip then clients != [] else exists i :: 0 <= i < |clients| && clients[i].provider == Default))
      && (p == Err(NonceRequired) <==> r.isBuy && !r.hasNonce && TwoEligible(table, clients, r))
  {
    hide TasksFrom;
    TasksAreExactlyTheEligible(table, clients, listings, r);
    var tasks := TasksFrom(clients, listings, 0, r);
    if clients != [] { WhoIsUsed(clients, r); }
    SomeMeansTask(table, clients, r, tasks);
    TwoMeansTwoTasks(table, clients, r, tasks);
  }

  lemma WhoIsUsed(clients: seq<Client>, r: Request)
    requires clients != []
    ensures SomeUsed(clients, r) <==> r.withTip || !forall i :: 0 <= i < |clients| ==> !clients[i].provider.Default?
  {
    if r.withTip {
      assert Used(clients[0], r);
    } else if i :| 0 <= i < |clients| && clients[i].provider.Default? {
      assert Used(clients[i], r);
    }
  }

  lemma SomeMeansTask(table: Table, clients: seq<Client>, r: Request, tasks: seq<Task>)
    requires forall t :: t in tasks <==> Eligible(table, clients, r, t)
    ensures SomeEligible(table, clients, r) <==> tasks != []
    ensures SomeEligible(table, clients, r) ==> SomeUsed(clients, r)
  {
    if tasks != [] {
      assert tasks[0] in tasks;
      assert Used(clients[tasks[0].client], r);
    }
  }

  lemma TwoMeansTwoTasks(table: Table, clients: seq<Client>, r: Request, tasks: seq<Task>)
    requires forall t :: t in tasks <==> Eligible(table, clients, r, t)
    requires forall i, j :: 0 <= i < j < |tasks| ==> tasks[i] != tasks[j]
    ensures TwoEligible(table, clients, r) <==> |tasks| > 1
  {
    hide Eligible;
    if |tasks| > 1 {
      assert tasks[0] in tasks && tasks[1] in tasks;
    }
  }

  /** What a trade submits, read off the table: a client's stored entries for a buy or a sale, if tips
      are paid or the client is the default one. Only a tipped trade that checks the minimum leaves
      out an entry, of any client but the default one, and just those whose tip is below it. */
  lemma WhatIsSubmitted(table: Table, clients: seq<Client>, listings: seq<seq<Config>>, r: Request, t: Task)
    requires |listings| == |clients| && AreListings(table, if r.isBuy then Buy else Sell, listings)
    ensures Prepare(clients, listings, r).Ok? ==>
      Prepare(clients, listings, r).value == TasksFrom(clients, listings, 0, r)
    ensures t in TasksFrom(clients, listings, 0, r) <==>
      && t.client < |clients|
      && var client := clients[t.client];
      && var key := Key(client.provider, if r.isBuy then Buy else Sell, t.config.strategy);
      && t.config.provider == client.provider
      && key in table && table[key] == t.config.fee
      && (!r.withTip ==> client.provider == Default)
      && (r.withTip && r.checkMinTip && client.provider != Default ==> t.config.fee.tip >= client.minTip)
  {
    hide TasksFrom;
    TasksAreExactlyTheEligible(table, clients, listings, r);
    var tasks := TasksFrom(clients, listings, 0, r);
    assert t in tasks <==> Eligible(table, clients, r, t);
  }

  /** With fees set globally, a tipped buy through two clients whose minimum tips are met always
      needs a durable nonce. */
  lemma GlobalFeesNeedNonce(before: Table, table: Table, buy: Fee, sell: Fee, clients: seq<Client>,
                            listings: seq<seq<Config>>, r: Request)
    requires Effect(SetGlobal(buy, sell), before, table)
    requires |listings| == |clients| && AreListings(table, Buy, listings)
    requires r.isBuy && r.withTip && !r.hasNonce
    requires |clients| >= 2 && forall i :: 0 <= i < |clients| ==> clients[i].minTip <= buy.tip
    ensures Prepare(clients, listings, r) == Err(NonceRequired)
  {
    hide TasksFrom, Prepare;
    PrepareLetsThrough(table, clients, listings, r);
    GlobalTask(before, table, buy, sell, clients, 0, r);
    GlobalTask(before, table, buy, sell, clients, 1, r);
  }

  lemma GlobalTask(before: Table, table: Table, buy: Fee, sell: Fee, clients: seq<Client>, i: nat, r: Request)
    requires Effect(SetGlobal(buy, sell), before, table)
    requires r.isBuy && r.withTip && i < |clients| && clients[i].minTip <= buy.tip
    ensures exists c :: Eligible(table, clients, r, Task(i, c))
  {
    var p := clients[i].provider;
    assert EntriesOf(table, p, Buy) == After(SetGlobal(buy, sell), p, Buy, EntriesOf(before, p, Buy));
    var fee := EntriesOf(table, p, Buy).normal.value;
    assert Eligible(table, clients, r, Task(i, Config(p, Normal, fee)));
  }
}
