/** When an allocation can miss a free block: runs of the shared memory pool from its fresh state in
    which a scan comes back empty-handed although some block is free at every moment of it. */
module PoolMisses {
  import opened MachineInts
  import opened Bits
  import opened BlockBitmap
  import opened BlockPool
  import opened PoolSteps

  /** In every state of the run some block is free. */
  predicate SomeBlockStaysFree(total: nat, s: State, events: seq<Event>)
    decreases |events|
  {
    FreeBelow(s.words, total) != {} &&
    (events == [] ||
     (Step(total, s, events[0].thread, events[0].action).Some? ==>
        SomeBlockStaysFree(total, Step(total, s, events[0].thread, events[0].action).value, events[1..])))
  }

  /** The events are one whole allocation of idle thread `t`, among steps of others, that comes back
      without a block although some block is free throughout. */
  ghost predicate Misses(total: nat, s: State, t: nat, events: seq<Event>) {
    && t < |s.threads| && s.threads[t] == Idle
    && events != [] && events[0] == Event(t, StartAllocate) && ScanOnly(events[1..], t)
    && Run(total, s, events).Some?
    && |Run(total, s, events).value.threads| == |s.threads|
    && Run(total, s, events).value.threads[t] == Idle
    && SomeBlockStaysFree(total, s, events)
  }

  // ----- putting runs together -----

  lemma RunStops(total: nat, s: State)
    ensures Run(total, s, []) == Some(s)
  {
  }

  lemma RunOne(total: nat, s: State, e: Event, rest: seq<Event>, next: State)
    requires Step(total, s, e.thread, e.action) == Some(next)
    ensures Run(total, s, [e] + rest) == Run(total, next, rest)
    ensures SomeBlockStaysFree(total, s, [e] + rest) <==>
      FreeBelow(s.words, total) != {} && SomeBlockStaysFree(total, next, rest)
  {
    hide Step;
    assert ([e] + rest)[1..] == rest;
  }

  lemma {:induction false} RunJoins(total: nat, s: State, a: seq<Event>, b: seq<Event>)
    requires Run(total, s, a).Some?
    ensures Run(total, s, a + b) == Run(total, Run(total, s, a).value, b)
    ensures SomeBlockStaysFree(total, s, a) && SomeBlockStaysFree(total, Run(total, s, a).value, b) ==>
      SomeBlockStaysFree(total, s, a + b)
    decreases |a|
  {
    hide Step;
    if a == [] {
      assert a + b == b;
    } else {
      assert (a + b)[1..] == a[1..] + b;
      RunJoins(total, Step(total, s, a[0].thread, a[0].action).value, a[1..], b);
    }
  }

  // ----- one thread at a time -----

  /** The words that the scan looks at on attempts `from` up to `to` are all zero. */
  ghost predicate ZeroRange(words: seq<u64>, start: nat, from: nat, to: nat) {
    |words| > 0 && forall a: nat :: from <= a < to ==> words[ScanIndex(start, a, |words|)] == 0
  }

  predicate OnlyBy(events: seq<Event>, t: nat) {
    forall k :: 0 <= k < |events| ==> events[k].thread == t
  }

  /** The scan goes past zero words. */
  lemma {:induction false} ScanZeros(total: nat, s: State, t: nat, start: nat, a: nat, k: nat)
    returns (events: seq<Event>)
    requires t < |s.threads| && s.threads[t] == Scanning(start, a) && a <= k <= |s.words|
    requires ZeroRange(s.words, start, a, k)
    ensures Run(total, s, events) == Some(SetThread(s, t, Scanning(start, k))) && ScanOnly(events, t)
    ensures OnlyBy(events, t)
    ensures FreeBelow(s.words, total) != {} ==> SomeBlockStaysFree(total, s, events)
    decreases k - a
  {
    hide FreeBelow;
    if a == k {
      events := [];
      assert SetThread(s, t, Scanning(start, k)) == s;
    } else {
      var s1, s2 := SetThread(s, t, Trying(start, a, 0)), SetThread(s, t, Scanning(start, a + 1));
      assert s.words[ScanIndex(start, a, |s.words|)] == 0;
      assert Step(total, s, t, LoadWord) == Some(s1);
      assert SetThread(s1, t, Scanning(start, a + 1)) == s2;
      assert Step(total, s1, t, CompareAndSwap(false)) == Some(s2);
      var rest := ScanZeros(total, s2, t, start, a + 1, k);
      assert SetThread(s2, t, Scanning(start, k)) == SetThread(s, t, Scanning(start, k));
      var e1, e2 := Event(t, LoadWord), Event(t, CompareAndSwap(false));
      events := [e1] + ([e2] + rest);
      hide Step;
      RunOne(total, s1, e2, rest, s2);
      RunOne(total, s, e1, [e2] + rest, s1);
    }
  }

  /** The bitmap of a pool with a free block has a first non-zero word on the scan. */
  lemma {:induction false} FirstHit(words: seq<u64>, start: nat, a: nat, hit: nat) returns (k: nat)
    requires a <= hit < |words| && words[ScanIndex(start, hit, |words|)] != 0
    ensures a <= k < |words| && ZeroRange(words, start, a, k) && words[ScanIndex(start, k, |words|)] != 0
    decreases hit - a
  {
    k := a;
    if words[ScanIndex(start, a, |words|)] == 0 {
      k := FirstHit(words, start, a + 1, hit);
    }
  }

  lemma FirstFreeWord(words: seq<u64>, total: nat, start: nat) returns (k: nat)
    requires FreeBelow(words, total) != {}
    ensures k < |words| && ZeroRange(words, start, 0, k) && words[ScanIndex(start, k, |words|)] != 0
  {
    hide Free;
    var b :| b in FreeBelow(words, total);
    FreeInWord(words, b);
    Around(start, b / 64, |words|);
    k := FirstHit(words, start, 0, AttemptOf(start, b / 64, |words|));
  }

  /** What an undisturbed allocation of block `b` leaves behind. */
  function AfterAllocation(s: State, b: nat): State
    requires b / 64 < |s.words|
  {
    s.(words := Claimed(s.words, b), head := (b + 1) * 64, live := s.live + {b})
  }

  /** On a non-zero word, undisturbed, the scan claims its lowest block and hands it out. */
  lemma SoloClaim(total: nat, s: State, t: nat, start: nat, a: nat) returns (events: seq<Event>, b: nat)
    requires Inv(total, s) && t < |s.threads| && s.threads[t] == Scanning(start, a) && a < |s.words|
    requires s.words[ScanIndex(start, a, |s.words|)] != 0
    ensures Free(s.words, b) && b / 64 == ScanIndex(start, a, |s.words|)
    ensures Run(total, s, events) == Some(SetThread(AfterAllocation(s, b), t, Idle)) && OnlyBy(events, t)
    ensures FreeBelow(Claimed(s.words, b), total) != {} ==> SomeBlockStaysFree(total, s, events)
  {
    hide Free, Claimed, TrailingZeros;
    var index := ScanIndex(start, a, |s.words|);
    var w := s.words[index];
    LowestBitOfWord(s.words, index);
    b := 64 * index + TrailingZeros(w);
    var s1 := SetThread(s, t, Trying(start, a, w));
    var s2 := SetThread(s1, t, Checking(start, a, b)).(words := Claimed(s.words, b));
    var s3 := SetThread(s2, t, Storing(b));
    var s4 := SetThread(s3, t, Idle).(head := (b + 1) * 64, live := s.live + {b});
    assert Step(total, s, t, LoadWord) == Some(s1);
    assert Step(total, s1, t, CompareAndSwap(false)) == Some(s2);
    assert Step(total, s2, t, CheckBound) == Some(s3);
    assert Step(total, s3, t, StoreHint) == Some(s4);
    assert s4 == SetThread(AfterAllocation(s, b), t, Idle);
    var e1, e2 := Event(t, LoadWord), Event(t, CompareAndSwap(false));
    var e3, e4 := Event(t, CheckBound), Event(t, StoreHint);
    events := [e1] + ([e2] + ([e3] + ([e4] + [])));
    hide Step;
    ClaimedShrinks(s.words, b, total);
    hide FreeBelow;
    RunStops(total, s4);
    RunOne(total, s3, e4, [], s4);
    RunOne(total, s2, e3, [e4] + [], s3);
    RunOne(total, s1, e2, [e3] + ([e4] + []), s2);
    RunOne(total, s, e1, [e2] + ([e3] + ([e4] + [])), s1);
  }

  /** An undisturbed allocation from a pool with a free block takes one, in the first word on its scan
      that has any. */
  lemma SoloAllocate(total: nat, s: State, t: nat) returns (events: seq<Event>, b: nat, k: nat)
    requires Inv(total, s) && t < |s.threads| && s.threads[t] == Idle && FreeBelow(s.words, total) != {}
    ensures Free(s.words, b) && k < |s.words| && b / 64 == ScanIndex(s.head / 64, k, |s.words|)
    ensures ZeroRange(s.words, s.head / 64, 0, k)
    ensures Run(total, s, events) == Some(AfterAllocation(s, b)) && OnlyBy(events, t)
    ensures Inv(total, AfterAllocation(s, b))
    ensures FreeBelow(Claimed(s.words, b), total) != {} ==> SomeBlockStaysFree(total, s, events)
  {
    hide Free, Claimed, AfterAllocation, Inv, ScanOnly, SomeBlockStaysFree, FreeBelow, ZeroRange;
    var start := s.head / 64;
    k := FirstFreeWord(s.words, total, start);
    var s1 := SetThread(s, t, Scanning(start, 0));
    assert Step(total, s, t, StartAllocate) == Some(s1);
    var pass := ScanZeros(total, s1, t, start, 0, k);
    var s2 := SetThread(s1, t, Scanning(start, k));
    StepKeepsInv(total, s, t, StartAllocate);
    RunKeepsInv(total, s1, pass);
    var claim, b' := SoloClaim(total, s2, t, start, k);
    b := b';
    events := [Event(t, StartAllocate)] + (pass + claim);
    RunJoins(total, s1, pass, claim);
    RunOne(total, s, Event(t, StartAllocate), pass + claim, s1);
    BackToIdle(s, s2, t, b);
    RunKeepsInv(total, s, events);
  }

  lemma BackToIdle(s: State, scanning: State, t: nat, b: nat)
    requires t < |s.threads| && s.threads[t] == Idle && b / 64 < |s.words|
    requires scanning == s.(threads := scanning.threads) && |scanning.threads| == |s.threads|
    requires scanning.threads[t := Idle] == s.threads
    ensures SetThread(AfterAllocation(scanning, b), t, Idle) == AfterAllocation(s, b)
  {
    hide Claimed;
  }

  /** What an undisturbed deallocation of block `b` leaves behind. */
  function AfterRelease(s: State, b: nat): State
    requires b / 64 < |s.words|
  {
    s.(words := Released(s.words, b), live := s.live - {b})
  }

  lemma SoloFree(total: nat, s: State, t: nat, b: nat) returns (events: seq<Event>)
    requires Inv(total, s) && t < |s.threads| && s.threads[t] == Idle && b in s.live
    ensures b / 64 < |s.words|
    ensures Run(total, s, events) == Some(AfterRelease(s, b)) && OnlyBy(events, t)
    ensures Inv(total, AfterRelease(s, b))
    ensures FreeBelow(s.words, total) != {} ==> SomeBlockStaysFree(total, s, events)
  {
    hide Free, Released;
    var s1 := SetThread(s, t, Freeing(b)).(live := s.live - {b});
    var s2 := SetThread(s1, t, Idle).(words := Released(s.words, b));
    assert Step(total, s, t, StartFree(b)) == Some(s1);
    assert Step(total, s1, t, FetchOr) == Some(s2);
    assert s2 == AfterRelease(s, b);
    var e1, e2 := Event(t, StartFree(b)), Event(t, FetchOr);
    events := [e1] + ([e2] + []);
    BlockIsBelow(total, s, b);
    ReleasedGrows(s.words, b, total);
    hide Step, Inv, FreeBelow;
    RunStops(total, s2);
    RunOne(total, s1, e2, [], s2);
    RunOne(total, s, e1, [e2] + [], s1);
    RunKeepsInv(total, s, events);
  }

  lemma BlockIsBelow(total: nat, s: State, b: nat)
    requires Inv(total, s) && b in s.live
    ensures b < total
  {
    hide Free;
  }

  ghost predicate AllIdle(s: State) {
    forall t :: 0 <= t < |s.threads| ==> s.threads[t] == Idle
  }

  /** One thread alone can empty the pool. */
  lemma {:induction false} Drain(total: nat, s: State) returns (events: seq<Event>, e: State)
    requires Inv(total, s) && AllIdle(s) && |s.threads| > 0
    ensures Run(total, s, events) == Some(e) && Inv(total, e) && e.threads == s.threads
    ensures FreeBelow(e.words, total) == {}
    decreases |FreeBelow(s.words, total)|
  {
    hide Inv, Free, Claimed;
    if FreeBelow(s.words, total) == {} {
      events, e := [], s;
    } else {
      var take, b, _ := SoloAllocate(total, s, 0);
      var next := AfterAllocation(s, b);
      ClaimedShrinks(s.words, b, total);
      FreeIsBelow(total, s, b);
      var rest, e' := Drain(total, next);
      events, e := take + rest, e';
      RunJoins(total, s, take, rest);
    }
  }

  lemma FreeIsBelow(total: nat, s: State, b: nat)
    requires Inv(total, s) && Free(s.words, b)
    ensures b in FreeBelow(s.words, total)
  {
    hide Free;
  }

  // ----- the miss -----

  /** The first block of the last word. */
  function LastWordBlock(n: nat): nat
    requires n > 0
  {
    64 * (n - 1)
  }

  /** Before the miss: all threads are idle, only one block is free, in the last word, and the hint sends
      the next scan to word 0. */
  ghost predicate Poised(total: nat, s: State) {
    var n := |s.words|;
    && total > 64 && n > 1 && Inv(total, s) && AllIdle(s) && s.head == 64 * n
    && (forall b: nat :: Free(s.words, b) <==> b == LastWordBlock(n))
    && (forall b: nat :: b in s.live <==> b < total && b != LastWordBlock(n))
  }

  /** A fresh pool of more than 64 blocks gets there with a single thread. */
  lemma ReachPoised(total: nat, init: State) returns (events: seq<Event>, s: State)
    requires Init(total, init) && total > 64 && |init.threads| > 0
    ensures Run(total, init, events) == Some(s) && Poised(total, s) && |s.threads| == |init.threads|
  {
    hide Inv, Free, Init, Poised;
    var drain, empty := DrainFresh(total, init);
    var refill, s' := FreeLastWord(total, empty);
    RunJoins(total, init, drain, refill);
    events, s := drain + refill, s';
  }

  lemma DrainFresh(total: nat, init: State) returns (events: seq<Event>, e: State)
    requires Init(total, init) && |init.threads| > 0
    ensures Run(total, init, events) == Some(e) && Inv(total, e) && AllIdle(e) && e.threads == init.threads
    ensures FreeBelow(e.words, total) == {} && forall b: nat :: b in e.live <==> b < total
  {
    hide Inv, Free;
    InitIsSafe(total, init);
    events, e := Drain(total, init);
    QuietPoolIsPartitioned(total, e);
    EmptyMeansTaken(e.words, total);
  }

  lemma EmptyMeansTaken(words: seq<u64>, total: nat)
    requires FreeBelow(words, total) == {}
    ensures forall b: nat :: b in TakenBelow(words, total) <==> b < total
  {
    hide Free;
    forall b: nat | b < total ensures !Free(words, b) { assert b !in FreeBelow(words, total); }
  }

  /** In an empty pool, freeing a block and taking it again sets the hint; freeing the first block of the
      last word then leaves just that one free. */
  lemma FreeLastWord(total: nat, s: State) returns (events: seq<Event>, e: State)
    requires Inv(total, s) && AllIdle(s) && |s.threads| > 0 && total > 64
    requires FreeBelow(s.words, total) == {} && forall b: nat :: b in s.live <==> b < total
    ensures Run(total, s, events) == Some(e) && Poised(total, e) && e.threads == s.threads
  {
    var n := |s.words|;
    hide Free, Claimed, Released, SomeBlockStaysFree, ZeroRange;
    var c, z := n - 1, LastWordBlock(n);
    forall b: nat ensures !Free(s.words, b) { assert Free(s.words, b) ==> b in FreeBelow(s.words, total); }
    var give := SoloFree(total, s, 0, c);
    var s1 := AfterRelease(s, c);
    forall b: nat ensures Free(s1.words, b) <==> b == c { ReleasedFrees(s.words, c, b); }
    assert c in FreeBelow(s1.words, total);
    var take, b, _ := SoloAllocate(total, s1, 0);
    var s2 := AfterAllocation(s1, c);
    forall b: nat ensures !Free(s2.words, b) { ClaimedFrees(s1.words, c, b); }
    var last := SoloFree(total, s2, 0, z);
    e := AfterRelease(s2, z);
    forall b: nat ensures Free(e.words, b) <==> b == z { ReleasedFrees(s2.words, z, b); }
    hide Inv, Run;
    RunJoins(total, s, give, take);
    RunJoins(total, s, give + take, last);
    events := give + take + last;
  }

  lemma StaysNonEmpty(total: nat, words: seq<u64>, b: nat)
    requires b < total && Free(words, b)
    ensures FreeBelow(words, total) != {}
  {
    hide Free;
    assert b in FreeBelow(words, total);
  }

  /** Words without a free block are zero. */
  lemma NoBlockNoWord(words: seq<u64>, i: nat)
    requires i < |words| && forall b: nat :: Free(words, b) ==> b / 64 != i
    ensures words[i] == 0
  {
    hide Free, TrailingZeros;
    if words[i] != 0 { LowestBitOfWord(words, i); }
  }

  /** Thread 0 passes every word but the last, all zero. Meanwhile thread 1 frees a block behind it, takes
      it again, which moves the hint to the last word, frees it once more, and then takes the block of
      the last word just before the scan gets there. */
  lemma MissFromPoised(total: nat, s: State) returns (events: seq<Event>)
    requires Poised(total, s) && |s.threads| >= 2
    ensures Misses(total, s, 0, events)
  {
    hide Inv, Free, TrailingZeros, ScanOnly, ZeroRange, FreeBelow;
    var n := |s.words|;
    InvShape(total, s);
    StaysNonEmpty(total, s.words, LastWordBlock(n));
    LeadingZeros(s.words);
    var s1 := SetThread(s, 0, Scanning(n, 0));
    var s2 := SetThread(s1, 0, Scanning(n, n - 1));
    assert Step(total, s, 0, StartAllocate) == Some(s1);
    var pass := ScanZeros(total, s1, 0, n, 0, n - 1);
    StepKeepsInv(total, s, 0, StartAllocate);
    RunKeepsInv(total, s1, pass);
    var swap, s3 := SwapBlocks(total, s2);
    var end := ComeBackEmpty(total, s3);
    hide Step, Run, SomeBlockStaysFree;
    RunJoins(total, s2, swap, end);
    RunJoins(total, s1, pass, swap + end);
    RunOne(total, s, Event(0, StartAllocate), pass + (swap + end), s1);
    events := [Event(0, StartAllocate)] + (pass + (swap + end));
    OnlyScans(events, pass, swap, end);
  }

  lemma LeadingZeros(words: seq<u64>)
    requires |words| > 1 && forall b: nat :: Free(words, b) <==> b == LastWordBlock(|words|)
    ensures ZeroRange(words, |words|, 0, |words| - 1)
  {
    hide Free;
    forall a: nat | a < |words| - 1 ensures words[ScanIndex(|words|, a, |words|)] == 0 {
      RemainderUnique(1, a, |words| + a, |words|);
      NoBlockNoWord(words, a);
    }
  }

  /** What thread 1 does while thread 0 is about to look at the last word. */
  lemma SwapBlocks(total: nat, s: State) returns (events: seq<Event>, e: State)
    requires total > 64 && Inv(total, s) && |s.threads| >= 2 && s.threads[1] == Idle
    requires |s.words| > 1 && s.head == 64 * |s.words|
    requires forall b: nat :: Free(s.words, b) <==> b == LastWordBlock(|s.words|)
    requires forall b: nat :: b in s.live <==> b < total && b != LastWordBlock(|s.words|)
    ensures Run(total, s, events) == Some(e) && SomeBlockStaysFree(total, s, events) && OnlyBy(events, 1)
    ensures e.threads == s.threads && |e.words| == |s.words|
    ensures forall b: nat :: Free(e.words, b) <==> b == |s.words| - 2
  {
    var n := |s.words|;
    hide Free, Claimed, Released, SomeBlockStaysFree, ZeroRange, FreeBelow, Inv;
    InvShape(total, s);
    var c, z := n - 2, LastWordBlock(n);
    StaysNonEmpty(total, s.words, z);
    var give := SoloFree(total, s, 1, c);
    var s1 := AfterRelease(s, c);
    forall b: nat ensures Free(s1.words, b) <==> b == c || b == z { ReleasedFrees(s.words, c, b); }
    StaysNonEmpty(total, s1.words, z);
    var take, b, k := SoloAllocate(total, s1, 1);
    EarlierWordFirst(s1.words, c, b, k);
    var s2 := AfterAllocation(s1, c);
    forall b: nat ensures Free(s2.words, b) <==> b == z { ClaimedFrees(s1.words, c, b); }
    StaysNonEmpty(total, s2.words, z);
    var back := SoloFree(total, s2, 1, c);
    var s3 := AfterRelease(s2, c);
    forall b: nat ensures Free(s3.words, b) <==> b == c || b == z { ReleasedFrees(s2.words, c, b); }
    StaysNonEmpty(total, s3.words, z);
    var last, b', k' := SoloAllocate(total, s3, 1);
    HintedWordFirst(s3.words, c, b', k');
    e := AfterAllocation(s3, z);
    forall b: nat ensures Free(e.words, b) <==> b == c { ClaimedFrees(s3.words, z, b); }
    StaysNonEmpty(total, e.words, c);
    hide Run;
    RunJoins(total, s, give, take);
    RunJoins(total, s, give + take, back);
    RunJoins(total, s, give + take + back, last);
    events := give + take + back + last;
  }

  lemma InvShape(total: nat, s: State)
    requires Inv(total, s)
    ensures Shape(s.words, total)
  {
  }

  /** A scan from word 0 takes block `c` before the block of the last word. */
  lemma EarlierWordFirst(words: seq<u64>, c: nat, b: nat, k: nat)
    requires |words| > 1 && c == |words| - 2 && Free(words, c) && k < |words|
    requires b == c || b == LastWordBlock(|words|)
    requires b / 64 == ScanIndex(|words|, k, |words|) && ZeroRange(words, |words|, 0, k)
    ensures b == c
  {
    var n := |words|;
    RemainderUnique(1, k, n + k, n);
    RemainderUnique(1, c / 64, n + c / 64, n);
    assert c / 64 < k ==> words[ScanIndex(n, c / 64, n)] == 0;
    FreeInWord(words, c);
  }

  /** A scan from the last word takes the block there first. */
  lemma HintedWordFirst(words: seq<u64>, c: nat, b: nat, k: nat)
    requires |words| > 1 && c == |words| - 2 && Free(words, LastWordBlock(|words|)) && k < |words|
    requires b == c || b == LastWordBlock(|words|)
    requires b / 64 == ScanIndex(|words| - 1, k, |words|) && ZeroRange(words, |words| - 1, 0, k)
    ensures b == LastWordBlock(|words|)
  {
    var n := |words|;
    RemainderUnique(0, n - 1, n - 1, n);
    assert k > 0 ==> words[ScanIndex(n - 1, 0, n)] == 0;
    FreeInWord(words, LastWordBlock(n));
  }

  /** Thread 0 finds the last word zero and comes back. */
  lemma ComeBackEmpty(total: nat, s: State) returns (events: seq<Event>)
    requires total > 64 && |s.words| > 1 && |s.threads| >= 1
    requires s.threads[0] == Scanning(|s.words|, |s.words| - 1) && Shape(s.words, total)
    requires forall b: nat :: Free(s.words, b) <==> b == |s.words| - 2
    ensures Run(total, s, events).Some? && SomeBlockStaysFree(total, s, events)
    ensures forall k :: 0 <= k < |events| ==>
      events[k].thread == 0 && (events[k].action == LoadWord || events[k].action.CompareAndSwap?)
    ensures var e := Run(total, s, events).value;
      |e.threads| == |s.threads| && e.threads[0] == Idle
  {
    hide Free, TrailingZeros;
    var n := |s.words|;
    RemainderUnique(1, n - 1, n + (n - 1), n);
    NoBlockNoWord(s.words, n - 1);
    StaysNonEmpty(total, s.words, n - 2);
    var s1, s2, e := SetThread(s, 0, Trying(n, n - 1, 0)), SetThread(s, 0, Scanning(n, n)), SetThread(s, 0, Idle);
    assert SetThread(s1, 0, Scanning(n, n)) == s2 && SetThread(s2, 0, Idle) == e;
    assert Step(total, s, 0, LoadWord) == Some(s1);
    assert Step(total, s1, 0, CompareAndSwap(false)) == Some(s2);
    assert Step(total, s2, 0, LoadWord) == Some(e);
    var e1, e2 := Event(0, LoadWord), Event(0, CompareAndSwap(false));
    events := [e1] + ([e2] + ([e1] + []));
    hide Step;
    RunStops(total, e);
    RunOne(total, s2, e1, [], e);
    RunOne(total, s1, e2, [e1] + [], s2);
    RunOne(total, s, e1, [e2] + ([e1] + []), s1);
  }

  lemma OnlyScans(events: seq<Event>, pass: seq<Event>, swap: seq<Event>, end: seq<Event>)
    requires events == [Event(0, StartAllocate)] + (pass + (swap + end)) && ScanOnly(pass, 0)
    requires OnlyBy(swap, 1) && ScanOnly(end, 0)
    ensures events != [] && events[0] == Event(0, StartAllocate) && ScanOnly(events[1..], 0)
  {
    assert events[1..] == pass + (swap + end);
  }

  // ----- exactly which pools -----

  /** In a pool of one word a thread that scans, has seen a bit, or has a block, does not come back
      empty-handed as long as some block is free. */
  ghost predicate OneWordScan(l: Local) {
    || (l.Scanning? && l.attempt == 0)
    || (l.Trying? && l.attempt == 0 && l.current != 0)
    || l.Checking?
  }

  lemma ZeroWordIsEmpty(total: nat, words: seq<u64>)
    requires total <= 64 && Shape(words, total) && (|words| == 0 || words[0] == 0)
    ensures FreeBelow(words, total) == {}
  {
    forall b: nat | b < total ensures !Free(words, b) { ZeroHasNoBit(b % 64); }
  }

  lemma {:induction false} OneWordScanHolds(total: nat, s: State, t: nat, events: seq<Event>)
    requires total <= 64 && Inv(total, s) && t < |s.threads| && OneWordScan(s.threads[t])
    requires ScanOnly(events, t) && Run(total, s, events).Some? && SomeBlockStaysFree(total, s, events)
    ensures |Run(total, s, events).value.threads| == |s.threads|
    ensures OneWordScan(Run(total, s, events).value.threads[t])
    decreases |events|
  {
    hide FreeBelow, Free, Claimed, Released, TrailingZeros;
    if events != [] {
      var u, a := events[0].thread, events[0].action;
      var next := Step(total, s, u, a).value;
      StepKeepsInv(total, s, u, a);
      if |s.words| == 0 || s.words[0] == 0 { ZeroWordIsEmpty(total, s.words); }
      if |next.words| == 0 || next.words[0] == 0 { ZeroWordIsEmpty(total, next.words); }
      assert ScanOnly(events[1..], t);
      assert FreeBelow(next.words, total) != {};
      OneWordScanHolds(total, next, t, events[1..]);
    }
  }

  lemma OneWordNeverMisses(total: nat, s: State, t: nat, events: seq<Event>)
    requires total <= 64 && Inv(total, s)
    ensures !Misses(total, s, t, events)
  {
    hide Inv, FreeBelow, ScanOnly;
    if Misses(total, s, t, events) {
      var next := Step(total, s, t, StartAllocate).value;
      StepKeepsInv(total, s, t, StartAllocate);
      OneWordScanHolds(total, next, t, events[1..]);
    }
  }

  /** A run `before`, and after it an allocation of thread `t` that misses. */
  ghost predicate MissAfter(total: nat, init: State, before: seq<Event>, t: nat, miss: seq<Event>) {
    Run(total, init, before).Some? && Misses(total, Run(total, init, before).value, t, miss)
  }

  /** A thread on its own never misses: nobody puts a block back behind it. */
  lemma LoneThreadNeverMisses(total: nat, s: State, t: nat, events: seq<Event>)
    requires Inv(total, s) && |s.threads| == 1
    ensures !Misses(total, s, t, events)
  {
    hide Inv, FreeBelow, Run;
    if Misses(total, s, t, events) {
      var next := Step(total, s, t, StartAllocate).value;
      StepKeepsInv(total, s, t, StartAllocate);
      RunFirst(total, s, events);
      LonePutsNothingBack(total, next, events[1..]);
      EmptyHandedMeansEmpty(total, next, t, events[1..]);
      FreeAtTheEnd(total, s, events);
    }
  }

  lemma RunFirst(total: nat, s: State, events: seq<Event>)
    requires events != [] && Run(total, s, events).Some?
    ensures Step(total, s, events[0].thread, events[0].action).Some?
    ensures Run(total, s, events) ==
      Run(total, Step(total, s, events[0].thread, events[0].action).value, events[1..])
  {
    hide Step;
  }

  lemma {:induction false} LonePutsNothingBack(total: nat, s: State, events: seq<Event>)
    requires |s.threads| == 1 && ScanOnly(events, 0)
    ensures !PutsBackBehind(total, s, 0, events)
    decreases |events|
  {
    hide Passed;
    if events != [] {
      assert ScanOnly(events[1..], 0);
      var r := Step(total, s, events[0].thread, events[0].action);
      if r.Some? { LonePutsNothingBack(total, r.value, events[1..]); }
    }
  }

  lemma {:induction false} FreeAtTheEnd(total: nat, s: State, events: seq<Event>)
    requires Run(total, s, events).Some? && SomeBlockStaysFree(total, s, events)
    ensures FreeBelow(Run(total, s, events).value.words, total) != {}
    decreases |events|
  {
    hide Step, FreeBelow;
    if events != [] {
      FreeAtTheEnd(total, Step(total, s, events[0].thread, events[0].action).value, events[1..]);
    }
  }

  lemma {:induction false} RunKeepsThreads(total: nat, s: State, events: seq<Event>)
    requires Run(total, s, events).Some?
    ensures |Run(total, s, events).value.threads| == |s.threads|
    decreases |events|
  {
    if events != [] {
      var next := Step(total, s, events[0].thread, events[0].action).value;
      assert |next.threads| == |s.threads|;
      hide Step;
      RunKeepsThreads(total, next, events[1..]);
    }
  }

  /** From a fresh pool an allocation can come back empty-handed with some block free at every moment of
      it exactly when the pool has more than 64 blocks and more than one thread uses it. */
  lemma ScanCanMissAFreeBlock(total: nat, init: State)
    requires Init(total, init)
    ensures (exists before, t, miss :: MissAfter(total, init, before, t, miss)) <==>
            total > 64 && |init.threads| > 1
  {
    hide Init, Run;
    if total > 64 && |init.threads| > 1 {
      hide Misses;
      var before, s := ReachPoised(total, init);
      var miss := MissFromPoised(total, s);
      assert MissAfter(total, init, before, 0, miss);
    } else {
      forall before, t, miss ensures !MissAfter(total, init, before, t, miss) {
        if Run(total, init, before).Some? {
          var s := Run(total, init, before).value;
          InitIsSafe(total, init);
          RunKeepsInv(total, init, before);
          RunKeepsThreads(total, init, before);
          if total <= 64 {
            OneWordNeverMisses(total, s, t, miss);
          } else if |s.threads| == 1 {
            LoneThreadNeverMisses(total, s, t, miss);
          }
        }
      }
    }
  }
}
