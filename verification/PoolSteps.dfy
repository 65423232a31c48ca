/** The shared memory pool under any number of threads. Every atomic load, compare-and-swap,
    fetch-or and store is one step, and the steps of different threads interleave freely. */
module PoolSteps {
  import opened MachineInts
  import opened Bits
  import opened BlockBitmap
  import opened BlockPool

  /** Where a thread stands inside `allocate_block` or `deallocate_block`. */
  datatype Local =
    | Idle
    | Scanning(start: nat, attempt: nat)
    | Trying(start: nat, attempt: nat, current: u64)
    | Checking(start: nat, attempt: nat, block: nat)
    | Storing(block: nat)
    | Freeing(block: nat)

  /** The pool, its threads, and the blocks that callers hold. */
  datatype State = State(words: seq<u64>, head: nat, threads: seq<Local>, live: set<nat>)

  datatype Action = StartAllocate | LoadWord | CompareAndSwap(spurious: bool) | CheckBound | StoreHint
                  | StartFree(block: nat) | FetchOr

  function SetThread(s: State, t: nat, l: Local): State
    requires t < |s.threads|
  {
    s.(threads := s.threads[t := l])
  }

  /** One step of thread `t`; no state if the action is not the thread's next one. */
  function Step(total: nat, s: State, t: nat, a: Action): Option<State> {
    if t >= |s.threads| then None
    else
      match (s.threads[t], a)
      case (Idle, StartAllocate) =>
        Some(SetThread(s, t, Scanning(s.head / 64, 0)))
      case (Scanning(start, attempt), LoadWord) =>
        if attempt >= |s.words| then Some(SetThread(s, t, Idle))
        else Some(SetThread(s, t, Trying(start, attempt, s.words[ScanIndex(start, attempt, |s.words|)])))
      case (Trying(start, attempt, current), CompareAndSwap(spurious)) =>
        if |s.words| == 0 then None
        else if current == 0 then Some(SetThread(s, t, Scanning(start, attempt + 1)))
        else
          var index := ScanIndex(start, attempt, |s.words|);
          LowestBitOfWord([current], 0);
          var b := 64 * index + TrailingZeros(current);
          if spurious || s.words[index] != current then
            Some(SetThread(s, t, Trying(start, attempt, s.words[index])))
          else
            Some(SetThread(s, t, Checking(start, attempt, b)).(words := Claimed(s.words, b)))
      case (Checking(start, attempt, b), CheckBound) =>
        if b < total then Some(SetThread(s, t, Storing(b)))
        else if b / 64 < |s.words| then
          Some(SetThread(s, t, Scanning(start, attempt + 1)).(words := Released(s.words, b)))
        else None
      case (Storing(b), StoreHint) =>
        Some(SetThread(s, t, Idle).(head := (b + 1) * 64, live := s.live + {b}))
      case (Idle, StartFree(b)) =>
        if b in s.live then Some(SetThread(s, t, Freeing(b)).(live := s.live - {b})) else None
      case (Freeing(b), FetchOr) =>
        if b / 64 < |s.words| then Some(SetThread(s, t, Idle).(words := Released(s.words, b))) else None
      case _ => None
  }

  /** The thread has the block: claimed and not yet handed out, or taken back and not yet freed. */
  predicate Holds(l: Local, b: nat) {
    (l.Checking? || l.Storing? || l.Freeing?) && l.block == b
  }

  ghost predicate HeldBy(s: State, t: int, b: nat) {
    0 <= t < |s.threads| && Holds(s.threads[t], b)
  }

  /** Some thread has the block. */
  ghost predicate Held(s: State, b: nat) {
    exists t :: HeldBy(s, t, b)
  }

  /** Every block is in exactly one place: free, in a caller's hands, or inside one thread. */
  ghost predicate Inv(total: nat, s: State) {
    && Shape(s.words, total)
    && (forall b: nat :: b < total <==> Free(s.words, b) || b in s.live || Held(s, b))
    && (forall b: nat :: Free(s.words, b) ==> b !in s.live && !Held(s, b))
    && (forall b: nat :: b in s.live ==> !Held(s, b))
    && (forall t, u, b: nat :: HeldBy(s, t, b) && HeldBy(s, u, b) ==> t == u)
  }

  lemma InvIsTight(total: nat, s: State)
    requires Inv(total, s)
    ensures Tight(s.words, total)
  {
  }

  /** A fresh pool with any number of idle threads. */
  ghost predicate Init(total: nat, s: State) {
    && Shape(s.words, total)
    && (forall i :: 0 <= i < |s.words| ==> s.words[i] == InitialWord(i, total))
    && (forall t :: 0 <= t < |s.threads| ==> s.threads[t] == Idle)
    && s.live == {}
  }

  lemma InitIsSafe(total: nat, s: State)
    requires Init(total, s)
    ensures Inv(total, s)
  {
    hide Free;
    InitialIsAllFree(s.words, total);
    assert forall b: nat :: !Held(s, b);
  }

  /** A successful compare-and-swap takes a block that was free, so nobody had it. */
  lemma CasKeepsInv(total: nat, s: State, t: nat, spurious: bool)
    requires Inv(total, s) && t < |s.threads| && s.threads[t].Trying?
    requires Step(total, s, t, CompareAndSwap(spurious)).Some?
    ensures Inv(total, Step(total, s, t, CompareAndSwap(spurious)).value)
  {
    hide Free, Claimed, TrailingZeros;
    var n, s' := s.threads[t], Step(total, s, t, CompareAndSwap(spurious)).value;
    if s'.threads[t].Checking? {
      var index := ScanIndex(n.start, n.attempt, |s.words|);
      LowestBitOfWord(s.words, index);
      var b := s'.threads[t].block;
      forall c: nat ensures Free(s'.words, c) <==> Free(s.words, c) && c != b { ClaimedFrees(s.words, b, c); }
      Handover(total, s, s', t);
    } else {
      Handover(total, s, s', t);
    }
  }

  /** If a step changes only its own thread's hold, the bitmap and the live set in step with each
      other, every block is still in exactly one place. */
  lemma Handover(total: nat, s: State, s': State, t: nat)
    requires Inv(total, s) && t < |s.threads|
    requires Shape(s'.words, total)
    requires |s'.threads| == |s.threads| && s'.threads == s.threads[t := s'.threads[t]]
    requires forall b: nat :: Free(s.words, b) || b in s.live || Holds(s.threads[t], b) <==>
      Free(s'.words, b) || b in s'.live || Holds(s'.threads[t], b)
    requires forall b: nat :: Free(s'.words, b) ==> b !in s'.live && !Holds(s'.threads[t], b)
    requires forall b: nat :: b in s'.live ==> !Holds(s'.threads[t], b)
    ensures Inv(total, s')
  {
    hide Free;
    forall b: nat
      ensures b < total <==> Free(s'.words, b) || b in s'.live || Held(s', b)
      ensures Free(s'.words, b) ==> b !in s'.live && !Held(s', b)
      ensures b in s'.live ==> !Held(s', b)
    {
      HeldElsewhere(s, s', t, b);
    }
    forall u, v, b: nat | HeldBy(s', u, b) && HeldBy(s', v, b)
      ensures u == v
    {
      HeldElsewhere(s, s', t, b);
      assert Holds(s.threads[t], b) ==> HeldBy(s, t, b);
      if u != t { assert HeldBy(s, u, b) && Held(s, b); }
      if v != t { assert HeldBy(s, v, b) && Held(s, b); }
    }
  }

  /** Whether a block is held changes only with the stepping thread's own hold. */
  lemma HeldElsewhere(s: State, s': State, t: nat, b: nat)
    requires t < |s.threads| && |s'.threads| == |s.threads| && s'.threads == s.threads[t := s'.threads[t]]
    requires forall u, v :: HeldBy(s, u, b) && HeldBy(s, v, b) ==> u == v
    ensures Held(s', b) <==> Holds(s'.threads[t], b) || (Held(s, b) && !Holds(s.threads[t], b))
    ensures Holds(s.threads[t], b) ==> Held(s, b)
  {
    assert Holds(s'.threads[t], b) <==> HeldBy(s', t, b);
    assert Holds(s.threads[t], b) <==> HeldBy(s, t, b);
    if Held(s', b) && !Holds(s'.threads[t], b) {
      var u :| HeldBy(s', u, b);
      assert HeldBy(s, u, b) && Held(s, b);
    }
    if Held(s, b) && !Holds(s.threads[t], b) {
      var u :| HeldBy(s, u, b);
      assert HeldBy(s', u, b);
    }
  }

  /** Every step of every thread keeps the blocks in exactly one place each. In particular no bit
      past the last block is ever set. */
  lemma StepKeepsInv(total: nat, s: State, t: nat, a: Action)
    requires Inv(total, s) && Step(total, s, t, a).Some?
    ensures Inv(total, Step(total, s, t, a).value)
  {
    hide Free, Released, Claimed, TrailingZeros;
    var s' := Step(total, s, t, a).value;
    match a
    case CompareAndSwap(spurious) =>
      CasKeepsInv(total, s, t, spurious);
    case FetchOr =>
      var b := s.threads[t].block;
      assert HeldBy(s, t, b) && Held(s, b);
      forall c: nat ensures Free(s'.words, c) <==> Free(s.words, c) || c == b { ReleasedFrees(s.words, b, c); }
      Handover(total, s, s', t);
    case CheckBound =>
      assert HeldBy(s, t, s.threads[t].block) && Held(s, s.threads[t].block);
      Handover(total, s, s', t);
    case StoreHint =>
      assert HeldBy(s, t, s.threads[t].block) && Held(s, s.threads[t].block);
      Handover(total, s, s', t);
    case _ =>
      Handover(total, s, s', t);
  }

  datatype Event = Event(thread: nat, action: Action)

  function Run(total: nat, s: State, events: seq<Event>): Option<State>
    decreases |events|
  {
    if events == [] then Some(s)
    else
      match Step(total, s, events[0].thread, events[0].action)
      case None => None
      case Some(next) => Run(total, next, events[1..])
  }

  lemma {:induction false} RunKeepsInv(total: nat, s: State, events: seq<Event>)
    requires Inv(total, s) && Run(total, s, events).Some?
    ensures Inv(total, Run(total, s, events).value)
    decreases |events|
  {
    hide Inv, Step;
    if events != [] {
      StepKeepsInv(total, s, events[0].thread, events[0].action);
      RunKeepsInv(total, Step(total, s, events[0].thread, events[0].action).value, events[1..]);
    }
  }

  /** Under every interleaving from a fresh pool: a claimed block always lies inside the pool, so
      the repair branch is never taken; no block is in two hands; and no bit past the last block
      is ever set. */
  lemma PoolIsSafe(total: nat, init: State, events: seq<Event>, t: nat, u: nat, b: nat)
    requires Init(total, init) && Run(total, init, events).Some?
    ensures var s := Run(total, init, events).value;
      && (t < |s.threads| && Holds(s.threads[t], b) ==> b < total && b !in s.live && !Free(s.words, b))
      && (t < |s.threads| && u < |s.threads| && t != u && Holds(s.threads[t], b) ==> !Holds(s.threads[u], b))
      && (b in s.live ==> b < total && !Free(s.words, b))
      && (Free(s.words, b) ==> b < total)
  {
    hide Free, Step, Run;
    InitIsSafe(total, init);
    RunKeepsInv(total, init, events);
    var s := Run(total, init, events).value;
    assert t < |s.threads| && Holds(s.threads[t], b) ==> HeldBy(s, t, b) && Held(s, b);
    assert u < |s.threads| && Holds(s.threads[u], b) ==> HeldBy(s, u, b);
  }

  /** The same for the bytes: blocks in use occupy disjoint ranges within the region. */
  lemma LiveBytesAreDisjoint(total: nat, blockSize: nat, init: State, events: seq<Event>, b: nat, c: nat)
    requires Init(total, init) && Run(total, init, events).Some?
    requires b in Run(total, init, events).value.live && c in Run(total, init, events).value.live && b < c
    ensures 0 <= b * blockSize && b * blockSize + blockSize <= c * blockSize
    ensures c * blockSize + blockSize <= total * blockSize
  {
    hide Free, Step, Run;
    InitIsSafe(total, init);
    RunKeepsInv(total, init, events);
    BlocksAreDisjoint(b, c, blockSize, total);
  }

  /** With every thread idle, the callers' blocks are exactly the ones not free. */
  lemma QuietPoolIsPartitioned(total: nat, s: State)
    requires Inv(total, s) && forall t :: 0 <= t < |s.threads| ==> s.threads[t] == Idle
    ensures s.live == TakenBelow(s.words, total)
    ensures PopCount(s.words) + |s.live| == total
  {
    hide Free;
    assert forall b: nat :: !Held(s, b);
    assert s.live == TakenBelow(s.words, total);
    InvIsTight(total, s);
    FreeAndTaken(s.words, total);
    PopCountIsFreeCount(s.words, total);
  }

  /** Refinement: as a set of free blocks, a step leaves the pool alone, takes out one free block
      for the stepping thread, or puts back the one that thread was freeing. */
  lemma StepRefinesFreeSet(total: nat, s: State, t: nat, a: Action)
    requires Inv(total, s) && Step(total, s, t, a).Some?
    ensures var s' := Step(total, s, t, a).value;
      var before, after := FreeBelow(s.words, total), FreeBelow(s'.words, total);
      || after == before
      || (s'.threads[t].Checking? && s'.threads[t].block in before && after == before - {s'.threads[t].block})
      || (s.threads[t].Freeing? && s.threads[t].block !in before && after == before + {s.threads[t].block})
  {
    hide Free, Released, Claimed, TrailingZeros;
    var s' := Step(total, s, t, a).value;
    if s'.threads[t].Checking? {
      var l := s.threads[t];
      LowestBitOfWord(s.words, ScanIndex(l.start, l.attempt, |s.words|));
      ClaimedShrinks(s.words, s'.threads[t].block, total);
    } else if s.threads[t].Freeing? {
      assert HeldBy(s, t, s.threads[t].block) && Held(s, s.threads[t].block);
      ReleasedGrows(s.words, s.threads[t].block, total);
    } else if s.threads[t].Checking? {
      assert HeldBy(s, t, s.threads[t].block) && Held(s, s.threads[t].block);
    }
  }

  // ----- what an empty-handed return means -----

  /** The attempt of a scan that looks at word `w`. */
  function AttemptOf(start: nat, w: nat, n: nat): nat
    requires w < n
  {
    (w + n - start % n) % n
  }

  /** Thread `t` will not look at word `w` again in this scan, or its scan is over. */
  predicate Passed(s: State, t: nat, w: nat)
    requires t < |s.threads|
  {
    var l := s.threads[t];
    && w < |s.words|
    && (|| l.Idle?
        || ((l.Scanning? || l.Trying?) && AttemptOf(l.start, w, |s.words|) < l.attempt)
        || (l.Trying? && l.current == 0 && AttemptOf(l.start, w, |s.words|) == l.attempt))
  }

  /** How the blocks left behind the scan of thread `t` change: a block put back behind it joins
      them, and a claimed one leaves them. */
  function BehindAfter(s: State, next: State, t: nat, e: Event, behind: set<nat>): set<nat>
    requires t < |s.threads| && e.thread < |s.threads| == |next.threads|
  {
    var l, l' := s.threads[e.thread], next.threads[e.thread];
    if e.action.FetchOr? && l.Freeing? then
      if Passed(s, t, l.block / 64) then behind + {l.block} else behind
    else if e.action.CompareAndSwap? && l'.Checking? then behind - {l'.block}
    else behind
  }

  /** The blocks put back behind the scan of thread `t` during a run and not claimed again. */
  function LeftBehind(total: nat, s: State, t: nat, events: seq<Event>, behind: set<nat>): set<nat>
    requires t < |s.threads|
    decreases |events|
  {
    if events == [] then behind
    else
      match Step(total, s, events[0].thread, events[0].action)
      case None => behind
      case Some(next) => LeftBehind(total, next, t, events[1..], BehindAfter(s, next, t, events[0], behind))
  }

  /** The free blocks in the words that thread `t` has passed are exactly those left behind. */
  ghost predicate Tracks(s: State, t: nat, behind: set<nat>) {
    && t < |s.threads|
    && (s.threads[t].Idle? || s.threads[t].Scanning? || s.threads[t].Trying?)
    && forall b: nat :: b in behind <==> Free(s.words, b) && Passed(s, t, b / 64)
  }

  /** Every step of every thread keeps the account, until the scan ends with a block. */
  lemma TrackStep(total: nat, s: State, t: nat, behind: set<nat>, e: Event)
    requires Inv(total, s) && Tracks(s, t, behind) && Step(total, s, e.thread, e.action).Some?
    requires e.thread == t ==> e.action == LoadWord || e.action.CompareAndSwap?
    ensures var s' := Step(total, s, e.thread, e.action).value;
      s'.threads[t].Checking? || Tracks(s', t, BehindAfter(s, s', t, e, behind))
  {
    hide Free, Released, Claimed, TrailingZeros, AttemptOf;
    var u, s' := e.thread, Step(total, s, e.thread, e.action).value;
    if u == t {
      OwnStepTracks(total, s, t, behind, e.action);
    } else if e.action.FetchOr? {
      forall c: nat
        ensures Free(s'.words, c) <==> Free(s.words, c) || c == s.threads[u].block
      {
        ReleasedFrees(s.words, s.threads[u].block, c);
      }
    } else if e.action.CheckBound? {
      assert HeldBy(s, u, s.threads[u].block) && Held(s, s.threads[u].block);
    } else if s'.threads[u].Checking? {
      var l := s.threads[u];
      LowestBitOfWord(s.words, ScanIndex(l.start, l.attempt, |s.words|));
      forall c: nat
        ensures Free(s'.words, c) <==> Free(s.words, c) && c != s'.threads[u].block
      {
        ClaimedFrees(s.words, s'.threads[u].block, c);
      }
    }
  }

  /** The scanning thread itself adds only words in which it sees no bit. */
  lemma OwnStepTracks(total: nat, s: State, t: nat, behind: set<nat>, a: Action)
    requires Inv(total, s) && Tracks(s, t, behind) && Step(total, s, t, a).Some?
    requires a == LoadWord || a.CompareAndSwap?
    ensures var s' := Step(total, s, t, a).value;
      s'.threads[t].Checking? || Tracks(s', t, behind)
  {
    hide Free, Claimed, TrailingZeros;
    var l, s' := s.threads[t], Step(total, s, t, a).value;
    if !s'.threads[t].Checking? {
      forall b: nat
        ensures b in behind <==> Free(s'.words, b) && Passed(s', t, b / 64)
      {
        if Free(s.words, b) {
          FreeInWord(s.words, b);
          Around(l.start, b / 64, |s.words|);
        }
      }
    }
  }

  lemma FreeInWord(words: seq<u64>, b: nat)
    requires Free(words, b)
    ensures b / 64 < |words| && words[b / 64] != 0
  {
    ZeroHasNoBit(b % 64);
  }

  /** The scanning thread itself only loads and swaps; every other thread does as it likes. */
  predicate ScanOnly(events: seq<Event>, t: nat) {
    forall k :: 0 <= k < |events| && events[k].thread == t ==>
      events[k].action == LoadWord || events[k].action.CompareAndSwap?
  }

  lemma {:induction false} RunTracks(total: nat, s: State, t: nat, events: seq<Event>, behind: set<nat>)
    requires Inv(total, s) && t < |s.threads| && (s.threads[t].Checking? || Tracks(s, t, behind))
    requires ScanOnly(events, t) && Run(total, s, events).Some?
    ensures var e := Run(total, s, events).value;
      e.threads != [] && |e.threads| == |s.threads| &&
      (e.threads[t].Checking? || Tracks(e, t, LeftBehind(total, s, t, events, behind)))
    decreases |events|
  {
    hide Inv, Tracks, BehindAfter;
    if events != [] {
      var e := events[0];
      var next := Step(total, s, e.thread, e.action).value;
      StepKeepsInv(total, s, e.thread, e.action);
      if !s.threads[t].Checking? { TrackStep(total, s, t, behind, e); }
      assert ScanOnly(events[1..], t);
      RunTracks(total, next, t, events[1..], BehindAfter(s, next, t, e, behind));
    }
  }

  /** A scan that comes back empty-handed leaves free precisely the blocks that were put back behind
      it and not claimed again. The pool is empty then exactly when there are none. */
  lemma EmptyHandedLeavesBehind(total: nat, s: State, t: nat, events: seq<Event>)
    requires Inv(total, s) && t < |s.threads| && s.threads[t].Scanning? && s.threads[t].attempt == 0
    requires ScanOnly(events, t) && Run(total, s, events).Some?
    ensures var e := Run(total, s, events).value;
      && |e.threads| == |s.threads|
      && (e.threads[t].Idle? ==> FreeBelow(e.words, total) == LeftBehind(total, s, t, events, {}))
  {
    hide Free, Run, Step, LeftBehind, AttemptOf;
    RunKeepsInv(total, s, events);
    RunTracks(total, s, t, events, {});
    var e := Run(total, s, events).value;
    forall b: nat | Free(e.words, b) ensures b / 64 < |e.words| { FreeInWord(e.words, b); }
  }

  /** Some block is put back in a word that thread `t` has passed. */
  predicate PutsBackBehind(total: nat, s: State, t: nat, events: seq<Event>)
    requires t < |s.threads|
    decreases |events|
  {
    events != [] &&
    match Step(total, s, events[0].thread, events[0].action)
    case None => false
    case Some(next) =>
      (events[0].action.FetchOr? && Passed(s, t, s.threads[events[0].thread].block / 64))
      || PutsBackBehind(total, next, t, events[1..])
  }

  lemma {:induction false} NothingBehind(total: nat, s: State, t: nat, events: seq<Event>)
    requires t < |s.threads| && !PutsBackBehind(total, s, t, events)
    ensures LeftBehind(total, s, t, events, {}) == {}
    decreases |events|
  {
    hide Passed;
    if events != [] {
      var r := Step(total, s, events[0].thread, events[0].action);
      if r.Some? {
        NothingBehind(total, r.value, t, events[1..]);
        assert BehindAfter(s, r.value, t, events[0], {}) == {};
      }
    }
  }

  /** In particular, as long as blocks are put back only in words the scan has not passed yet, or not
      at all, coming back empty-handed means that the pool is empty. */
  lemma EmptyHandedMeansEmpty(total: nat, s: State, t: nat, events: seq<Event>)
    requires Inv(total, s) && t < |s.threads| && s.threads[t].Scanning? && s.threads[t].attempt == 0
    requires ScanOnly(events, t) && Run(total, s, events).Some?
    requires !PutsBackBehind(total, s, t, events)
    ensures |Run(total, s, events).value.threads| == |s.threads|
    ensures Run(total, s, events).value.threads[t].Idle? ==>
      FreeBelow(Run(total, s, events).value.words, total) == {}
  {
    hide Run, LeftBehind, PutsBackBehind, FreeBelow;
    EmptyHandedLeavesBehind(total, s, t, events);
    NothingBehind(total, s, t, events);
  }
}
