/** The length of the ring as a thread reads it while the other one works: the head is loaded first,
    the tail some steps later. */
module RingLength {
  import opened MachineInts
  import opened SpscRing

  /** Which thread asks. The producer and the consumer do so between two of their own operations. */
  datatype Who = TheProducer | TheConsumer | AThird

  /** The counts are those at the load of the head (`Then`) and at the load of the tail (`Now`). */
  datatype Observer =
    | Looking
    | HasHead(head: u64, pushedThen: nat, poppedThen: nat)
    | Reported(length: nat, pushedThen: nat, poppedThen: nat, pushedNow: nat, poppedNow: nat)

  datatype Watched<T> = Watched(ring: State<T>, observer: Observer)

  datatype Event<T> = RingStep(action: Action<T>) | LoadHead | LoadTail

  predicate IsPush<T>(a: Action<T>) {
    a.PushLoadHead? || a.PushLoadTail? || a.PushCheck? || a.PushWrite? || a.PushStoreHead?
  }

  /** The observing thread takes no step of its own between its two loads. */
  predicate Busy<T>(who: Who, observer: Observer, a: Action<T>) {
    observer.HasHead? && ((who.TheProducer? && IsPush(a)) || (who.TheConsumer? && !IsPush(a)))
  }

  /** One step of the ring, or one load of the length. */
  function WatchStep<T>(capacity: nat, who: Who, w: Watched<T>, e: Event<T>): Option<Watched<T>> {
    match e
    case RingStep(a) =>
      if Busy(who, w.observer, a) then None
      else
        (match Step(capacity, w.ring, a)
         case None => None
         case Some(ring) => Some(w.(ring := ring)))
    case LoadHead =>
      if !w.observer.Looking? || (who.TheProducer? && !w.ring.producer.PushIdle?)
         || (who.TheConsumer? && !w.ring.consumer.PopIdle?) then None
      else Some(w.(observer := HasHead(w.ring.head, |w.ring.pushed|, |w.ring.popped|)))
    case LoadTail =>
      if !w.observer.HasHead? || capacity == 0 || capacity > U64_MAX then None
      else
        var o := w.observer;
        Some(w.(observer := Reported(Len(o.head, w.ring.tail, capacity), o.pushedThen, o.poppedThen,
                                     |w.ring.pushed|, |w.ring.popped|)))
  }

  function WatchRun<T>(capacity: nat, who: Who, w: Watched<T>, events: seq<Event<T>>): Option<Watched<T>>
    decreases |events|
  {
    if events == [] then Some(w)
    else
      match WatchStep(capacity, who, w, events[0])
      case None => None
      case Some(next) => WatchRun(capacity, who, next, events[1..])
  }

  // ----- what the two counters tell -----

  lemma ModShifted(x: nat, y: nat, z: int, m: nat)
    requires m > 0 && x == y + z * m
    ensures Mod(x, m) == Mod(y, m)
  {
    ModParts(y, m);
    var q := y / m + z;
    assert x == q * m + Mod(y, m);
    NotNegative(q, m, Mod(y, m));
    ModUnique(q, Mod(y, m), x, m);
  }

  lemma NotNegative(q: int, m: nat, r: nat)
    requires r < m && 0 <= q * m + r
    ensures 0 <= q
  {
  }

  /** The masked difference is congruent to the difference of the counts behind the counters, even if
      the tail has overtaken the loaded head. */
  lemma LenIsCongruent(pushed: nat, popped: nat, capacity: nat)
    requires IsPowerOfTwo(capacity) && 0 < capacity <= U64_MAX
    ensures var n := Len(Counter(pushed), Counter(popped), capacity);
      n < capacity && Mod(n + popped, capacity) == Mod(pushed, capacity)
  {
    hide IsPowerOfTwo, Slot, Mod, Counter;
    var k := CapacityDividesRange(capacity);
    var d, t := Difference(pushed, popped, capacity);
    SlotIsRemainder(d, capacity);
    ModParts(d, capacity);
    var n, v := Mod(d, capacity), d / capacity;
    Regroup(t, k, v, capacity);
    ModShifted(n + popped, pushed, t * k + 1 - v, capacity);
  }

  lemma Difference(pushed: nat, popped: nat, capacity: nat) returns (d: u64, t: int)
    ensures d == (Counter(pushed) + capacity + TWO_64 - Counter(popped)) % TWO_64 == Counter(d)
    ensures d + popped == pushed + capacity + t * TWO_64
  {
    var sum := Counter(pushed) + capacity + TWO_64 - Counter(popped);
    d := sum % TWO_64;
    t := 1 - sum / TWO_64 - pushed / TWO_64 + popped / TWO_64;
  }

  lemma Regroup(t: int, k: nat, v: nat, capacity: nat)
    requires TWO_64 == k * capacity
    ensures t * TWO_64 + capacity - v * capacity == (t * k + 1 - v) * capacity
  {
    assert t * (k * capacity) == (t * k) * capacity;
  }

  /** What such a number means, given the counts at the two loads. */
  lemma CongruentLength(n: nat, pushedThen: nat, pushedNow: nat, poppedNow: nat, capacity: nat)
    requires n < capacity && Mod(n + poppedNow, capacity) == Mod(pushedThen, capacity)
    requires poppedNow <= pushedNow < poppedNow + capacity && pushedThen <= pushedNow
    ensures poppedNow <= pushedThen ==> n == pushedThen - poppedNow
    ensures n == pushedNow - poppedNow <==> Mod(pushedThen, capacity) == Mod(pushedNow, capacity)
  {
    hide Mod;
    if poppedNow <= pushedThen {
      SameInWindow(n + poppedNow, pushedThen, poppedNow, capacity);
    }
    SameInWindow(n + poppedNow, pushedNow, poppedNow, capacity);
  }

  lemma SameInWindow(a: nat, b: nat, low: nat, m: nat)
    requires low <= a < low + m && low <= b < low + m
    ensures Mod(a, m) == Mod(b, m) <==> a == b
  {
    hide Mod;
    if a <= b { ModSeparates(a, b, m); } else { ModSeparates(b, a, m); }
  }

  // ----- every interleaving -----

  ghost predicate WatchInv<T>(capacity: nat, who: Who, w: Watched<T>) {
    var np, nc := |w.ring.pushed|, |w.ring.popped|;
    Inv(capacity, w.ring) &&
    match w.observer
    case Looking => true
    case HasHead(head, p, q) =>
      && head == Counter(p) && q <= p < q + capacity && p <= np && q <= nc
      && (who.TheProducer? ==> p == np && w.ring.producer.PushIdle?)
      && (who.TheConsumer? ==> q == nc && w.ring.consumer.PopIdle?)
    case Reported(n, p, q, p', q') =>
      && n < capacity && Mod(n + q', capacity) == Mod(p, capacity)
      && q <= p < q + capacity && q' <= p' < q' + capacity && p <= p' && q <= q'
      && (who.TheProducer? ==> p == p') && (who.TheConsumer? ==> q == q')
  }

  /** The ring's own steps only add to the two streams, each thread to its own. */
  lemma StepsOnlyAdd<T>(capacity: nat, s: State<T>, a: Action<T>)
    requires Step(capacity, s, a).Some?
    ensures var s' := Step(capacity, s, a).value;
      && |s.pushed| <= |s'.pushed| && |s.popped| <= |s'.popped|
      && (if IsPush(a) then s'.popped == s.popped && s'.consumer == s.consumer
          else s'.pushed == s.pushed && s'.producer == s.producer)
  {
    hide Slot, LooksFull;
  }

  lemma WatchStepKeepsInv<T>(capacity: nat, who: Who, w: Watched<T>, e: Event<T>)
    requires WatchInv(capacity, who, w) && WatchStep(capacity, who, w, e).Some?
    ensures WatchInv(capacity, who, WatchStep(capacity, who, w, e).value)
  {
    hide Step, Mod, Counter, Len, IsPowerOfTwo;
    match e
    case RingStep(a) =>
      StepKeepsInv(capacity, w.ring, a);
      StepsOnlyAdd(capacity, w.ring, a);
      hide Inv;
    case LoadHead =>
    case LoadTail =>
      LenIsCongruent(w.observer.pushedThen, |w.ring.popped|, capacity);
  }

  lemma {:induction false} WatchRunKeepsInv<T>(capacity: nat, who: Who, w: Watched<T>, events: seq<Event<T>>)
    requires WatchInv(capacity, who, w) && WatchRun(capacity, who, w, events).Some?
    ensures WatchInv(capacity, who, WatchRun(capacity, who, w, events).value)
    decreases |events|
  {
    hide WatchInv, WatchStep;
    if events != [] {
      WatchStepKeepsInv(capacity, who, w, events[0]);
      WatchRunKeepsInv(capacity, who, WatchStep(capacity, who, w, events[0]).value, events[1..]);
    }
  }

  /** A length read by the producer is the number of items waiting when it loads the tail, one read by
      the consumer the number waiting when it loaded the head. For a third thread it is the former
      exactly when the pushes in between are a multiple of the capacity; and as long as no more was
      popped than had been pushed at the first load, it claims no more than either moment had. */
  lemma ReportedLength<T>(capacity: nat, who: Who, init: State<T>, events: seq<Event<T>>)
    requires Init(capacity, init) && WatchRun(capacity, who, Watched(init, Looking), events).Some?
    requires WatchRun(capacity, who, Watched(init, Looking), events).value.observer.Reported?
    ensures capacity > 0
    ensures var Reported(n, p, q, p', q') := WatchRun(capacity, who, Watched(init, Looking), events).value.observer;
      && n < capacity && q <= p <= p' && q <= q' <= p'
      && (who.TheProducer? ==> n == p' - q')
      && (who.TheConsumer? ==> n == p - q)
      && (n == p' - q' <==> Mod(p, capacity) == Mod(p', capacity))
      && (q' <= p ==> n == p - q' && n <= p - q && n <= p' - q')
  {
    hide WatchRun, Step, Mod, Counter, IsPowerOfTwo;
    InitKeeps(capacity, init);
    var w := Watched(init, Looking);
    WatchRunKeepsInv(capacity, who, w, events);
    var Reported(n, p, q, p', q') := WatchRun(capacity, who, w, events).value.observer;
    CongruentLength(n, p, p', q', capacity);
  }

  /** A thread between two of its own operations, or a third one, can always ask, and with nothing
      happening between the loads it reads the number of waiting items. */
  lemma UndisturbedLength<T>(capacity: nat, who: Who, s: State<T>)
    requires Inv(capacity, s)
    requires (who.TheProducer? ==> s.producer.PushIdle?) && (who.TheConsumer? ==> s.consumer.PopIdle?)
    ensures var p, q := |s.pushed|, |s.popped|;
      && q <= p
      && WatchRun(capacity, who, Watched(s, Looking), [LoadHead, LoadTail]) ==
           Some(Watched(s, Reported(p - q, p, q, p, q)))
  {
    var p, q := |s.pushed|, |s.popped|;
    LenCounts(p, q, capacity);
    var w := Watched(s, HasHead(s.head, p, q));
    hide Inv, Len, Step;
    var events: seq<Event<T>> := [LoadHead, LoadTail];
    assert events[1..] == [LoadTail];
    assert WatchRun(capacity, who, w, [LoadTail]) == Some(Watched(s, Reported(p - q, p, q, p, q)));
  }

  // ----- a third thread can misread -----

  /** The length reported is that of neither load. */
  ghost predicate Misreads<T>(capacity: nat, init: State<T>, events: seq<Event<T>>) {
    var w := WatchRun(capacity, AThird, Watched(init, Looking), events);
    && w.Some? && w.value.observer.Reported?
    && var o := w.value.observer;
       o.length != o.pushedThen - o.poppedThen && o.length != o.pushedNow - o.poppedNow
  }

  function Lifted<T>(actions: seq<Action<T>>): (r: seq<Event<T>>)
    ensures |r| == |actions|
  {
    if actions == [] then [] else [RingStep(actions[0])] + Lifted(actions[1..])
  }

  /** Between the loads of a third thread the ring runs freely, up to the second load. */
  lemma {:induction false} RunThenLoadTail<T>(capacity: nat, w: Watched<T>, actions: seq<Action<T>>)
    requires Run(capacity, w.ring, actions).Some? && w.observer.HasHead? && 0 < capacity <= U64_MAX
    ensures WatchRun(capacity, AThird, w, Lifted(actions) + [LoadTail]) ==
      WatchStep(capacity, AThird, w.(ring := Run(capacity, w.ring, actions).value), LoadTail)
    decreases |actions|
  {
    hide Step, Len;
    var events := Lifted(actions) + [LoadTail];
    if actions == [] {
      assert events == [LoadTail] && events[1..] == [];
      assert w.(ring := w.ring) == w;
    } else {
      assert events[0] == RingStep(actions[0]) && events[1..] == Lifted(actions[1..]) + [LoadTail];
      RunThenLoadTail(capacity, w.(ring := Step(capacity, w.ring, actions[0]).value), actions[1..]);
    }
  }

  lemma RunStep<T>(capacity: nat, s: State<T>, a: Action<T>, rest: seq<Action<T>>)
    requires Step(capacity, s, a).Some?
    ensures Run(capacity, s, [a] + rest) == Run(capacity, Step(capacity, s, a).value, rest)
  {
    hide Step;
    assert ([a] + rest)[1..] == rest;
  }

  lemma {:induction false} RunJoins<T>(capacity: nat, s: State<T>, a: seq<Action<T>>, b: seq<Action<T>>)
    requires Run(capacity, s, a).Some?
    ensures Run(capacity, s, a + b) == Run(capacity, Run(capacity, s, a).value, b)
    decreases |a|
  {
    hide Step;
    if a == [] {
      assert a + b == b;
    } else {
      assert (a + b)[1..] == a[1..] + b;
      RunJoins(capacity, Step(capacity, s, a[0]).value, a[1..], b);
    }
  }

  lemma RunStops<T>(capacity: nat, s: State<T>)
    ensures Run(capacity, s, []) == Some(s)
  {
  }

  lemma OnePush<T>(capacity: nat, s: State<T>, item: T) returns (actions: seq<Action<T>>, e: State<T>)
    requires Inv(capacity, s) && s.producer == PushIdle && |s.pushed| - |s.popped| < capacity - 1
    ensures Run(capacity, s, actions) == Some(e) && Inv(capacity, e)
    ensures |e.pushed| == |s.pushed| + 1 && e.popped == s.popped && e.consumer == s.consumer
  {
    hide Slot, LooksFull, IsPowerOfTwo, Counter, Mod;
    var s1 := Step(capacity, s, PushLoadHead(item)).value;
    StepKeepsInv(capacity, s, PushLoadHead(item));
    var s2 := Step(capacity, s1, PushLoadTail).value;
    StepKeepsInv(capacity, s1, PushLoadTail);
    RefusalsAreTrue(capacity, s2);
    var s3 := Step(capacity, s2, PushCheck).value;
    StepKeepsInv(capacity, s2, PushCheck);
    AccessesStayInBounds(capacity, s3);
    var s4 := Step(capacity, s3, PushWrite).value;
    StepKeepsInv(capacity, s3, PushWrite);
    e := Step(capacity, s4, PushStoreHead).value;
    StepKeepsInv(capacity, s4, PushStoreHead);
    hide Step, Inv, Run;
    RunStops(capacity, e);
    RunStep(capacity, s4, PushStoreHead, []);
    RunStep(capacity, s3, PushWrite, [PushStoreHead] + []);
    RunStep(capacity, s2, PushCheck, [PushWrite] + ([PushStoreHead] + []));
    RunStep(capacity, s1, PushLoadTail, [PushCheck] + ([PushWrite] + ([PushStoreHead] + [])));
    RunStep(capacity, s, PushLoadHead(item), [PushLoadTail] + ([PushCheck] + ([PushWrite] + ([PushStoreHead] + []))));
    actions := [PushLoadHead(item)] + ([PushLoadTail] + ([PushCheck] + ([PushWrite] + ([PushStoreHead] + []))));
  }

  lemma PopStarts<T>(capacity: nat, s: State<T>) returns (s1: State<T>, s2: State<T>, s3: State<T>)
    requires Inv(capacity, s) && s.consumer == PopIdle && |s.popped| < |s.pushed|
    ensures Step(capacity, s, PopLoadTail) == Some(s1) && Step(capacity, s1, PopLoadHead) == Some(s2)
    ensures Step(capacity, s2, PopCheck) == Some(s3) && Inv(capacity, s3)
    ensures s3 == s.(consumer := PopReading(s.tail))
  {
    hide Slot, LooksFull, IsPowerOfTwo, Counter, Mod;
    s1 := Step(capacity, s, PopLoadTail).value;
    StepKeepsInv(capacity, s, PopLoadTail);
    s2 := Step(capacity, s1, PopLoadHead).value;
    StepKeepsInv(capacity, s1, PopLoadHead);
    RefusalsAreTrue(capacity, s2);
    s3 := Step(capacity, s2, PopCheck).value;
    StepKeepsInv(capacity, s2, PopCheck);
  }

  lemma OnePop<T>(capacity: nat, s: State<T>) returns (actions: seq<Action<T>>, e: State<T>)
    requires Inv(capacity, s) && s.consumer == PopIdle && |s.popped| < |s.pushed|
    ensures Run(capacity, s, actions) == Some(e) && Inv(capacity, e)
    ensures |e.popped| == |s.popped| + 1 && e.pushed == s.pushed
  {
    hide Slot, LooksFull, Inv, Run;
    var s1, s2, s3 := PopStarts(capacity, s);
    AccessesStayInBounds(capacity, s3);
    var s4 := Step(capacity, s3, PopCopy).value;
    StepKeepsInv(capacity, s3, PopCopy);
    e := Step(capacity, s4, PopStoreTail).value;
    StepKeepsInv(capacity, s4, PopStoreTail);
    hide Step;
    RunStops(capacity, e);
    RunStep(capacity, s4, PopStoreTail, []);
    RunStep(capacity, s3, PopCopy, [PopStoreTail] + []);
    RunStep(capacity, s2, PopCheck, [PopCopy] + ([PopStoreTail] + []));
    RunStep(capacity, s1, PopLoadHead, [PopCheck] + ([PopCopy] + ([PopStoreTail] + [])));
    RunStep(capacity, s, PopLoadTail, [PopLoadHead] + ([PopCheck] + ([PopCopy] + ([PopStoreTail] + []))));
    actions := [PopLoadTail] + ([PopLoadHead] + ([PopCheck] + ([PopCopy] + ([PopStoreTail] + []))));
  }

  /** The head is loaded from an empty ring; one item is pushed and popped; then the tail is loaded, and
      the empty ring is reported full. */
  lemma EmptyRingReadsFull<T>(capacity: nat, init: State<T>, item: T) returns (events: seq<Event<T>>)
    requires Init(capacity, init) && capacity > 1
    ensures WatchRun(capacity, AThird, Watched(init, Looking), events).Some?
    ensures WatchRun(capacity, AThird, Watched(init, Looking), events).value.observer ==
      Reported(capacity - 1, 0, 0, 1, 1)
  {
    hide Step, Run, Len, Mod, IsPowerOfTwo;
    InitKeeps(capacity, init);
    var pop, s2 := PushedThenPopped(capacity, init, item);
    var w := Watched(init, HasHead(init.head, 0, 0));
    RunThenLoadTail(capacity, w, pop);
    events := [LoadHead] + (Lifted(pop) + [LoadTail]);
    assert events[1..] == Lifted(pop) + [LoadTail];
    LenIsCongruent(0, 1, capacity);
    OneShort(Len(Counter(0), Counter(1), capacity), capacity);
  }

  lemma OneShort(n: nat, capacity: nat)
    requires 1 < capacity && n < capacity && Mod(n + 1, capacity) == Mod(0, capacity)
    ensures n == capacity - 1
  {
    hide Mod;
    ModParts(0, capacity);
    if n + 1 < capacity { ModParts(n + 1, capacity); }
  }

  lemma PushedThenPopped<T>(capacity: nat, s: State<T>, item: T) returns (actions: seq<Action<T>>, e: State<T>)
    requires Inv(capacity, s) && s.producer == PushIdle && s.consumer == PopIdle && s.pushed == [] && s.popped == []
    requires capacity > 1
    ensures Run(capacity, s, actions) == Some(e) && |e.pushed| == 1 && |e.popped| == 1 && e.tail == Counter(1)
  {
    hide Step, Run, Slot, IsPowerOfTwo, Mod, Counter;
    var push, middle := OnePush(capacity, s, item);
    var pop, end := OnePop(capacity, middle);
    RunJoins(capacity, s, push, pop);
    actions, e := push + pop, end;
  }

  /** A third thread can be told a length that holds at neither of its loads exactly when the ring can
      hold anything at all. */
  lemma ThirdThreadCanMisread<T>(capacity: nat, init: State<T>, item: T)
    requires Init(capacity, init)
    ensures (exists events :: Misreads(capacity, init, events)) <==> capacity > 1
  {
    hide WatchRun, Init;
    if capacity > 1 {
      var events := EmptyRingReadsFull(capacity, init, item);
      assert Misreads(capacity, init, events);
    } else {
      forall events ensures !Misreads(capacity, init, events) {
        NothingToMisread(capacity, init, events);
      }
    }
  }

  lemma NothingToMisread<T>(capacity: nat, init: State<T>, events: seq<Event<T>>)
    requires Init(capacity, init) && capacity <= 1
    ensures !Misreads(capacity, init, events)
  {
    hide WatchRun, Step, Mod, Counter, IsPowerOfTwo;
    if Misreads(capacity, init, events) {
      InitKeeps(capacity, init);
      WatchRunKeepsInv(capacity, AThird, Watched(init, Looking), events);
    }
  }
}
