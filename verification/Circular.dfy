/** Circular storage: counts run freely, and the item of a count lies in the slot of its remainder. */
module Circular {
  import opened MachineInts

  /** Writing the next free slot leaves the slots of the waiting items alone. */
  lemma NextSlotIsFree(np: nat, nc: nat, capacity: nat)
    requires capacity > 0 && nc <= np < nc + capacity
    ensures forall i :: nc <= i < np ==> Mod(i, capacity) != Mod(np, capacity)
  {
    forall i | nc <= i < np ensures Mod(i, capacity) != Mod(np, capacity) {
      ModSeparates(i, np, capacity);
    }
  }

  /** The items in the slots of the counts from `low` to `high`. */
  function Between<T>(slots: seq<T>, low: nat, high: nat): seq<T>
    requires low <= high && (low == high || |slots| > 0)
    decreases high - low
  {
    if low == high then []
    else
      ModParts(high - 1, |slots|);
      Between(slots, low, high - 1) + [slots[Mod(high - 1, |slots|)]]
  }

  /** Item by item. */
  lemma {:induction false} BetweenAt<T>(slots: seq<T>, low: nat, high: nat, k: nat)
    requires low <= k < high && |slots| > 0
    ensures |Between(slots, low, high)| == high - low
    ensures Between(slots, low, high)[k - low] == slots[Mod(k, |slots|)]
    decreases high
  {
    hide Mod;
    BetweenLength(slots, low, high);
    if k < high - 1 { BetweenAt(slots, low, high - 1, k); }
  }

  lemma {:induction false} BetweenFirst<T>(slots: seq<T>, low: nat, high: nat)
    requires low < high && |slots| > 0
    ensures Mod(low, |slots|) < |slots|
    ensures Between(slots, low, high) == [slots[Mod(low, |slots|)]] + Between(slots, low + 1, high)
    decreases high
  {
    hide Mod;
    ModParts(low, |slots|);
    ModParts(high - 1, |slots|);
    if low + 1 < high { BetweenFirst(slots, low, high - 1); }
  }

  lemma {:induction false} BetweenIgnoresOthers<T>(slots: seq<T>, low: nat, high: nat, k: nat, item: T)
    requires low <= high && k < |slots|
    requires forall i :: low <= i < high ==> Mod(i, |slots|) != k
    ensures Between(slots[k := item], low, high) == Between(slots, low, high)
    decreases high - low
  {
    hide Mod;
    if low < high {
      ModParts(high - 1, |slots|);
      BetweenIgnoresOthers(slots, low, high - 1, k, item);
    }
  }

  lemma {:induction false} BetweenLength<T>(slots: seq<T>, low: nat, high: nat)
    requires low <= high && (low == high || |slots| > 0)
    ensures |Between(slots, low, high)| == high - low
    decreases high - low
  {
    if low < high { BetweenLength(slots, low, high - 1); }
  }

  /** Counts that differ by `distance`, less than a period, give remainders that determine it. */
  lemma DistanceFromRemainders(low: nat, high: nat, m: nat)
    requires low <= high < low + m
    ensures high - low ==
      if Mod(high, m) >= Mod(low, m) then Mod(high, m) - Mod(low, m) else m - (Mod(low, m) - Mod(high, m))
  {
    ModShift(low, high - low, m);
  }

  /** Moving on by less than a period wraps at most once. */
  lemma ModShift(n: nat, d: nat, m: nat)
    requires d < m
    ensures Mod(n + d, m) == if Mod(n, m) + d < m then Mod(n, m) + d else Mod(n, m) + d - m
  {
    ModParts(n, m);
    if Mod(n, m) + d < m {
      ModUnique(n / m, Mod(n, m) + d, n + d, m);
    } else {
      assert (n / m + 1) * m == (n / m) * m + m;
      ModUnique(n / m + 1, Mod(n, m) + d - m, n + d, m);
    }
  }
}
