/** The power-of-two ring with one producer and one consumer. Both counters run freely through
    the 64-bit range and are masked only to find a slot. */
module SpscRing {
  import opened MachineInts
  import opened Bits
  import opened Circular

  // ----- masked counters -----

  /** `capacity.is_power_of_two()`. */
  predicate IsPowerOfTwo(n: nat) {
    CountOnes(n) == 1
  }

  lemma {:induction false} OneBitIsPower(n: nat)
    requires IsPowerOfTwo(n)
    ensures n == Pow2(TrailingZeros(n))
  {
    if n % 2 == 1 {
      NoOnesIsZero(n / 2);
    } else {
      OneBitIsPower(n / 2);
    }
  }

  lemma {:induction false} NoOnesIsZero(n: nat)
    ensures CountOnes(n) == 0 <==> n == 0
  {
    if n > 0 { NoOnesIsZero(n / 2); }
  }

  lemma CapacityDividesRange(capacity: nat) returns (k: nat)
    requires IsPowerOfTwo(capacity) && capacity <= U64_MAX
    ensures capacity > 0 && k > 0 && TWO_64 == k * capacity
  {
    hide TrailingZeros;
    OneBitIsPower(capacity);
    var e := TrailingZeros(capacity);
    WordSize();
    if e >= 64 {
      Pow2Grows(64, e);
    } else {
      Pow2Adds(64 - e, e);
    }
    k := Pow2(if e >= 64 then 0 else 64 - e);
  }

  /** The slot a counter value points at. */
  function Slot(counter: nat, capacity: nat): nat
    requires capacity > 0
  {
    And(counter, capacity - 1)
  }

  /** The 64-bit counter that stands for a count. */
  function Counter(count: nat): u64 {
    count % TWO_64
  }

  /** Masking the low 64 bits of a count finds the slot of the count. */
  lemma SlotIsRemainder(count: nat, capacity: nat)
    requires IsPowerOfTwo(capacity) && capacity <= U64_MAX
    ensures capacity > 0
    ensures Slot(Counter(count), capacity) == Mod(count, capacity) < capacity
  {
    hide TrailingZeros, And;
    OneBitIsPower(capacity);
    var k := CapacityDividesRange(capacity);
    MaskIsRemainder(Counter(count), TrailingZeros(capacity));
    ModOfMod(count, k, capacity);
    ModParts(count, capacity);
  }

  lemma CountersSeparate(a: nat, b: nat)
    requires a <= b < a + TWO_64
    ensures Counter(a) == Counter(b) <==> a == b
  {
  }

  lemma CounterSteps(a: nat)
    ensures (Counter(a) + 1) % TWO_64 == Counter(a + 1)
  {
  }

  /** The producer's test `(head + 1) & mask == tail & mask`, with a wrapping increment. */
  predicate LooksFull(head: u64, tail: u64, capacity: nat)
    requires capacity > 0
  {
    Slot((head + 1) % TWO_64, capacity) == Slot(tail, capacity)
  }

  /** The test fires exactly when `capacity - 1` items lie between the counts. */
  lemma LooksFullMeans(pushed: nat, popped: nat, capacity: nat)
    requires IsPowerOfTwo(capacity) && capacity <= U64_MAX
    requires popped <= pushed < popped + capacity
    ensures capacity > 0
    ensures LooksFull(Counter(pushed), Counter(popped), capacity) <==> pushed - popped == capacity - 1
  {
    hide Slot, Mod;
    SlotIsRemainder(popped, capacity);
    SlotIsRemainder(pushed + 1, capacity);
    CounterSteps(pushed);
    if pushed + 1 == popped + capacity {
      ModAddsPeriod(popped, capacity);
    } else {
      ModSeparates(popped, pushed + 1, capacity);
    }
  }

  // ----- the interleaving of one producer and one consumer -----

  /** A slot's memory: whole, or caught in the middle of a write. */
  datatype Cell<T> = Torn | Whole(value: T)

  datatype Producer<T> =
    | PushIdle
    | PushHasHead(item: T, head: u64)
    | PushHasTail(item: T, head: u64, tail: u64, ghostTail: nat)
    | PushWriting(item: T, head: u64)
    | PushWritten(item: T, head: u64)

  datatype Consumer<T> =
    | PopIdle
    | PopHasTail(tail: u64)
    | PopHasHead(tail: u64, head: u64, ghostHead: nat)
    | PopReading(tail: u64)
    | PopRead(tail: u64, item: Cell<T>)

  /** The ring, the two threads, and the history of completed pushes and pops. The `ghost...`
      fields record the count behind a loaded counter. */
  datatype State<T> = State(
    buffer: seq<Cell<T>>, head: u64, tail: u64,
    producer: Producer<T>, consumer: Consumer<T>,
    pushed: seq<T>, popped: seq<Cell<T>>)

  datatype Action<T> =
    | PushLoadHead(item: T) | PushLoadTail | PushCheck | PushWrite | PushStoreHead
    | PopLoadTail | PopLoadHead | PopCheck | PopCopy | PopStoreTail

  /** One atomic step. A slot is torn from the moment its write begins until it ends. */
  function Step<T>(capacity: nat, s: State<T>, a: Action<T>): Option<State<T>> {
    if capacity == 0 || |s.buffer| != capacity then None
    else
      match (a, s.producer, s.consumer)
      case (PushLoadHead(item), PushIdle, _) =>
        Some(s.(producer := PushHasHead(item, s.head)))
      case (PushLoadTail, PushHasHead(item, head), _) =>
        Some(s.(producer := PushHasTail(item, head, s.tail, |s.popped|)))
      case (PushCheck, PushHasTail(item, head, tail, _), _) =>
        if LooksFull(head, tail, capacity) then Some(s.(producer := PushIdle))
        else if Slot(head, capacity) >= capacity then None
        else Some(s.(producer := PushWriting(item, head), buffer := s.buffer[Slot(head, capacity) := Torn]))
      case (PushWrite, PushWriting(item, head), _) =>
        if Slot(head, capacity) >= capacity then None
        else Some(s.(producer := PushWritten(item, head), buffer := s.buffer[Slot(head, capacity) := Whole(item)]))
      case (PushStoreHead, PushWritten(item, head), _) =>
        Some(s.(producer := PushIdle, head := (head + 1) % TWO_64, pushed := s.pushed + [item]))
      case (PopLoadTail, _, PopIdle) =>
        Some(s.(consumer := PopHasTail(s.tail)))
      case (PopLoadHead, _, PopHasTail(tail)) =>
        Some(s.(consumer := PopHasHead(tail, s.head, |s.pushed|)))
      case (PopCheck, _, PopHasHead(tail, head, _)) =>
        Some(s.(consumer := if tail == head then PopIdle else PopReading(tail)))
      case (PopCopy, _, PopReading(tail)) =>
        if Slot(tail, capacity) >= capacity then None
        else Some(s.(consumer := PopRead(tail, s.buffer[Slot(tail, capacity)])))
      case (PopStoreTail, _, PopRead(tail, item)) =>
        Some(s.(consumer := PopIdle, tail := (tail + 1) % TWO_64, popped := s.popped + [item]))
      case _ => None
  }

  ghost predicate Init<T>(capacity: nat, s: State<T>) {
    && IsPowerOfTwo(capacity) && capacity <= U64_MAX && |s.buffer| == capacity
    && s.head == 0 && s.tail == 0 && s.pushed == [] && s.popped == []
    && s.producer == PushIdle && s.consumer == PopIdle
  }

  ghost predicate ProducerInv<T>(capacity: nat, s: State<T>)
    requires capacity > 0 && |s.buffer| == capacity
  {
    var np, nc := |s.pushed|, |s.popped|;
    match s.producer
    case PushIdle => true
    case PushHasHead(_, head) => head == s.head
    case PushHasTail(_, head, tail, seen) =>
      head == s.head && tail == Counter(seen) && seen <= nc && np <= seen + capacity - 1
    case PushWriting(_, head) => head == s.head && np < nc + capacity - 1
    case PushWritten(item, head) =>
      head == s.head && np < nc + capacity - 1 && s.buffer[Mod(np, capacity)] == Whole(item)
  }

  ghost predicate ConsumerInv<T>(capacity: nat, s: State<T>) {
    var np, nc := |s.pushed|, |s.popped|;
    match s.consumer
    case PopIdle => true
    case PopHasTail(tail) => tail == s.tail
    case PopHasHead(tail, head, seen) => tail == s.tail && head == Counter(seen) && nc <= seen <= np
    case PopReading(tail) => tail == s.tail && nc < np
    case PopRead(tail, item) => tail == s.tail && nc < np && item == Whole(s.pushed[nc])
  }

  /** What every reachable state satisfies. */
  ghost predicate Inv<T>(capacity: nat, s: State<T>) {
    var np, nc := |s.pushed|, |s.popped|;
    && IsPowerOfTwo(capacity) && 0 < capacity <= U64_MAX && |s.buffer| == capacity
    && s.head == Counter(np) && s.tail == Counter(nc)
    && nc <= np <= nc + capacity - 1
    && (forall i :: nc <= i < np ==> s.buffer[Mod(i, capacity)] == Whole(s.pushed[i]))
    && (forall i :: 0 <= i < nc ==> s.popped[i] == Whole(s.pushed[i]))
    && ProducerInv(capacity, s)
    && ConsumerInv(capacity, s)
  }

  lemma InitKeeps<T>(capacity: nat, s: State<T>)
    requires Init(capacity, s)
    ensures Inv(capacity, s)
  {
    var _ := CapacityDividesRange(capacity);
  }

  lemma ProducerStepKeepsInv<T>(capacity: nat, s: State<T>, a: Action<T>)
    requires Inv(capacity, s) && Step(capacity, s, a).Some?
    requires a.PushLoadHead? || a.PushLoadTail? || a.PushCheck? || a.PushWrite? || a.PushStoreHead?
    ensures Inv(capacity, Step(capacity, s, a).value)
  {
    hide IsPowerOfTwo, LooksFull, Slot, Mod, Counter;
    var np, nc := |s.pushed|, |s.popped|;
    SlotIsRemainder(np, capacity);
    CounterSteps(np);
    match a
    case PushCheck =>
      LooksFullMeans(np, s.producer.ghostTail, capacity);
      if !LooksFull(s.head, s.producer.tail, capacity) { NextSlotIsFree(np, nc, capacity); }
    case PushWrite =>
      NextSlotIsFree(np, nc, capacity);
    case _ =>
  }

  lemma ConsumerStepKeepsInv<T>(capacity: nat, s: State<T>, a: Action<T>)
    requires Inv(capacity, s) && Step(capacity, s, a).Some?
    requires a.PopLoadTail? || a.PopLoadHead? || a.PopCheck? || a.PopCopy? || a.PopStoreTail?
    ensures Inv(capacity, Step(capacity, s, a).value)
  {
    hide IsPowerOfTwo, LooksFull, Slot, Mod, Counter;
    var nc := |s.popped|;
    SlotIsRemainder(nc, capacity);
    CounterSteps(nc);
    if a.PopCheck? {
      CountersSeparate(nc, s.consumer.ghostHead);
    }
  }

  lemma StepKeepsInv<T>(capacity: nat, s: State<T>, a: Action<T>)
    requires Inv(capacity, s) && Step(capacity, s, a).Some?
    ensures Inv(capacity, Step(capacity, s, a).value)
  {
    hide Inv, Step;
    match a
    case PushLoadHead(_) => ProducerStepKeepsInv(capacity, s, a);
    case PushLoadTail => ProducerStepKeepsInv(capacity, s, a);
    case PushCheck => ProducerStepKeepsInv(capacity, s, a);
    case PushWrite => ProducerStepKeepsInv(capacity, s, a);
    case PushStoreHead => ProducerStepKeepsInv(capacity, s, a);
    case _ => ConsumerStepKeepsInv(capacity, s, a);
  }

  function Run<T>(capacity: nat, s: State<T>, actions: seq<Action<T>>): Option<State<T>>
    decreases |actions|
  {
    if actions == [] then Some(s)
    else
      match Step(capacity, s, actions[0])
      case None => None
      case Some(next) => Run(capacity, next, actions[1..])
  }

  lemma {:induction false} RunKeepsInv<T>(capacity: nat, s: State<T>, actions: seq<Action<T>>)
    requires Inv(capacity, s) && Run(capacity, s, actions).Some?
    ensures Inv(capacity, Run(capacity, s, actions).value)
    decreases |actions|
  {
    hide Inv, Step;
    if actions != [] {
      StepKeepsInv(capacity, s, actions[0]);
      RunKeepsInv(capacity, Step(capacity, s, actions[0]).value, actions[1..]);
    }
  }

  /** Under every interleaving the pops return, whole and in order, a prefix of what was pushed;
      between 0 and `capacity - 1` items wait; and no slot is read while it is being written. */
  lemma RingIsFifo<T>(capacity: nat, init: State<T>, actions: seq<Action<T>>)
    requires Init(capacity, init) && Run(capacity, init, actions).Some?
    ensures var s := Run(capacity, init, actions).value;
      && |s.popped| <= |s.pushed| <= |s.popped| + capacity - 1
      && (forall i :: 0 <= i < |s.popped| ==> s.popped[i] == Whole(s.pushed[i]))
      && ((s.producer.PushWriting? || s.producer.PushWritten?) && (s.consumer.PopReading? || s.consumer.PopRead?) ==>
          Slot(s.producer.head, capacity) != Slot(s.consumer.tail, capacity))
  {
    hide Step, IsPowerOfTwo, Slot, Mod, Counter;
    InitKeeps(capacity, init);
    RunKeepsInv(capacity, init, actions);
    var s := Run(capacity, init, actions).value;
    SlotIsRemainder(|s.pushed|, capacity);
    SlotIsRemainder(|s.popped|, capacity);
    if |s.popped| < |s.pushed| { ModSeparates(|s.popped|, |s.pushed|, capacity); }
  }

  /** A push is refused exactly when `capacity - 1` items were waiting at the moment it loaded the
      tail, and a pop exactly when none was waiting at the moment it loaded the head. */
  lemma RefusalsAreTrue<T>(capacity: nat, s: State<T>)
    requires Inv(capacity, s)
    ensures s.producer.PushHasTail? ==>
      && Step(capacity, s, PushCheck).Some?
      && (Step(capacity, s, PushCheck).value.producer.PushIdle? <==>
            |s.pushed| - s.producer.ghostTail == capacity - 1)
    ensures s.consumer.PopHasHead? ==>
      && Step(capacity, s, PopCheck).Some?
      && (Step(capacity, s, PopCheck).value.consumer.PopIdle? <==> s.consumer.ghostHead == |s.popped|)
    ensures s.producer.PushHasHead? ==>
      && Step(capacity, s, PushLoadTail).Some?
      && Step(capacity, s, PushLoadTail).value.producer.ghostTail == |s.popped|
    ensures s.consumer.PopHasTail? ==>
      && Step(capacity, s, PopLoadHead).Some?
      && Step(capacity, s, PopLoadHead).value.consumer.ghostHead == |s.pushed|
  {
    hide IsPowerOfTwo, LooksFull, Slot, Mod, Counter;
    SlotIsRemainder(|s.pushed|, capacity);
    if s.producer.PushHasTail? { LooksFullMeans(|s.pushed|, s.producer.ghostTail, capacity); }
    if s.consumer.PopHasHead? { CountersSeparate(|s.popped|, s.consumer.ghostHead); }
  }

  /** No thread ever reaches outside the buffer: every access the threads are about to make succeeds. */
  lemma AccessesStayInBounds<T>(capacity: nat, s: State<T>)
    requires Inv(capacity, s)
    ensures s.producer.PushHasTail? ==> Step(capacity, s, PushCheck).Some?
    ensures s.producer.PushWriting? ==> Step(capacity, s, PushWrite).Some?
    ensures s.consumer.PopReading? ==> Step(capacity, s, PopCopy).Some?
  {
    hide IsPowerOfTwo, LooksFull, Slot, Mod, Counter;
    SlotIsRemainder(|s.pushed|, capacity);
    SlotIsRemainder(|s.popped|, capacity);
  }

  // ----- the length -----

  /** `((head + capacity - tail) & mask)`, in wrapping 64-bit arithmetic. */
  function Len(head: u64, tail: u64, capacity: nat): nat
    requires 0 < capacity <= U64_MAX
  {
    Slot((head + capacity + TWO_64 - tail) % TWO_64, capacity)
  }

  lemma CounterDifference(pushed: nat, popped: nat, capacity: nat)
    requires popped <= pushed
    ensures (Counter(pushed) + capacity + TWO_64 - Counter(popped)) % TWO_64 == Counter(pushed - popped + capacity)
  {
    var a, b := pushed / TWO_64, popped / TWO_64;
    var k, r := (pushed - popped + capacity) / TWO_64, Counter(pushed - popped + capacity);
    RemainderUnique(k - a + b + 1, r, Counter(pushed) + capacity + TWO_64 - Counter(popped), TWO_64);
  }

  /** Between operations the reported length is the number of waiting items. */
  lemma LenCounts(pushed: nat, popped: nat, capacity: nat)
    requires IsPowerOfTwo(capacity) && 0 < capacity <= U64_MAX
    requires popped <= pushed < popped + capacity
    ensures Len(Counter(pushed), Counter(popped), capacity) == pushed - popped
  {
    hide Slot, IsPowerOfTwo, Mod, Counter;
    var d := pushed - popped;
    CounterDifference(pushed, popped, capacity);
    SlotIsRemainder(d + capacity, capacity);
    ModAddsPeriod(d, capacity);
    ModParts(d, capacity);
  }

  // ----- the ring as one thread drives it -----

  class CacheOptimizedRingBuffer<T> {
    const buffer: array<T>
    const capacity: nat
    var producerHead: u64
    var consumerTail: u64
    /** The number of pushes and of pops so far. */
    ghost var pushes: nat
    ghost var pops: nat

    ghost predicate Valid()
      reads this
    {
      && IsPowerOfTwo(capacity) && 0 < capacity <= U64_MAX && buffer.Length == capacity
      && producerHead == Counter(pushes) && consumerTail == Counter(pops)
      && pops <= pushes <= pops + capacity - 1
    }

    /** The waiting items, oldest first. */
    ghost function Contents(): seq<T>
      requires Valid()
      reads this, buffer
    {
      Between(buffer[..], pops, pushes)
    }

    static method New(capacity: u64, default: T) returns (ring: Option<CacheOptimizedRingBuffer<T>>)
      ensures ring.Some? <==> IsPowerOfTwo(capacity)
      ensures ring.Some? ==> fresh(ring.value) && ring.value.Valid() && ring.value.capacity == capacity
      ensures ring.Some? ==> fresh(ring.value.buffer) && ring.value.Contents() == []
    {
      if !IsPowerOfTwo(capacity) {
        return None;
      }
      var r := new CacheOptimizedRingBuffer(capacity, default);
      ring := Some(r);
    }

    constructor (capacity: u64, default: T)
      requires IsPowerOfTwo(capacity)
      ensures Valid() && this.capacity == capacity && fresh(buffer) && pushes == pops
    {
      NoOnesIsZero(capacity);
      this.capacity := capacity;
      buffer := new T[capacity](_ => default);
      producerHead, consumerTail, pushes, pops := 0, 0, 0, 0;
    }

    method TryPush(item: T) returns (ok: bool)
      requires Valid()
      modifies this`producerHead, this`pushes, buffer
      ensures Valid()
      ensures ok <==> |old(Contents())| < capacity - 1
      ensures Contents() == if ok then old(Contents()) + [item] else old(Contents())
    {
      hide IsPowerOfTwo, Slot, LooksFull, Mod, Counter;
      LooksFullMeans(pushes, pops, capacity);
      SlotIsRemainder(pushes, capacity);
      BetweenLength(buffer[..], pops, pushes);
      var currentHead, currentTail := producerHead, consumerTail;
      if LooksFull(currentHead, currentTail, capacity) {
        return false;
      }
      NextSlotIsFree(pushes, pops, capacity);
      BetweenIgnoresOthers(buffer[..], pops, pushes, Slot(currentHead, capacity), item);
      CounterSteps(pushes);
      ghost var slots := buffer[..];
      buffer[Slot(currentHead, capacity)] := item;
      producerHead := (currentHead + 1) % TWO_64;
      pushes := pushes + 1;
      assert buffer[..] == slots[Slot(currentHead, capacity) := item];
      return true;
    }

    method TryPop() returns (item: Option<T>)
      requires Valid()
      modifies this`consumerTail, this`pops
      ensures Valid()
      ensures item.None? <==> old(Contents()) == []
      ensures old(Contents()) == if item.Some? then [item.value] + Contents() else Contents()
    {
      hide IsPowerOfTwo, Slot, Mod, Counter;
      CountersSeparate(pops, pushes);
      SlotIsRemainder(pops, capacity);
      BetweenLength(buffer[..], pops, pushes);
      var currentTail, currentHead := consumerTail, producerHead;
      if currentTail == currentHead {
        return None;
      }
      BetweenFirst(buffer[..], pops, pushes);
      CounterSteps(pops);
      item := Some(buffer[Slot(currentTail, capacity)]);
      consumerTail := (currentTail + 1) % TWO_64;
      pops := pops + 1;
    }

    method Length() returns (n: nat)
      requires Valid()
      ensures n == |Contents()|
    {
      hide IsPowerOfTwo, Slot, Mod, Counter;
      LenCounts(pushes, pops, capacity);
      BetweenLength(buffer[..], pops, pushes);
      n := Len(producerHead, consumerTail, capacity);
    }
  }
}
