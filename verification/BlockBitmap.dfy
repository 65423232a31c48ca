/** The free-block bitmap of a shared memory pool: one bit a block, 64 blocks a word. */
module BlockBitmap {
  import opened MachineInts
  import opened Bits

  /** The bitmap has a word for every 64 blocks, the last one possibly in part. */
  predicate Shape(words: seq<u64>, total: nat) {
    |words| == (total + 63) / 64
  }

  /** Block `b` is marked free. */
  predicate Free(words: seq<u64>, b: nat) {
    b / 64 < |words| && Bit(words[b / 64], b % 64)
  }

  /** No bit beyond the last block is set. */
  ghost predicate Tight(words: seq<u64>, total: nat) {
    forall b: nat :: Free(words, b) ==> b < total
  }

  function FreeBelow(words: seq<u64>, n: nat): set<nat> {
    set b | 0 <= b < n && Free(words, b)
  }

  /** The blocks below `n` that are not free. */
  function TakenBelow(words: seq<u64>, n: nat): set<nat> {
    set b | 0 <= b < n && !Free(words, b)
  }

  /** The bitmap after the bit of block `b` is cleared. */
  function Claimed(words: seq<u64>, b: nat): (r: seq<u64>)
    requires b / 64 < |words|
    ensures |r| == |words|
  {
    words[b / 64 := ClearBit(words[b / 64], b % 64)]
  }

  /** The bitmap after the bit of block `b` is set. */
  function Released(words: seq<u64>, b: nat): (r: seq<u64>)
    requires b / 64 < |words|
    ensures |r| == |words|
  {
    words[b / 64 := SetBit(words[b / 64], b % 64)]
  }

  lemma ClaimedFrees(words: seq<u64>, b: nat, c: nat)
    requires b / 64 < |words|
    ensures Free(Claimed(words, b), c) <==> Free(words, c) && c != b
  {
    if c / 64 == b / 64 {
      ClearBitClears(words[b / 64], b % 64, c % 64);
    }
  }

  lemma ReleasedFrees(words: seq<u64>, b: nat, c: nat)
    requires b / 64 < |words|
    ensures Free(Released(words, b), c) <==> Free(words, c) || c == b
  {
    if c / 64 == b / 64 {
      SetBitSets(words[b / 64], b % 64, c % 64);
    }
  }

  lemma ClaimedShrinks(words: seq<u64>, b: nat, n: nat)
    requires b / 64 < |words|
    ensures FreeBelow(Claimed(words, b), n) == FreeBelow(words, n) - {b}
    ensures Tight(words, n) ==> Tight(Claimed(words, b), n)
  {
    forall c: nat ensures Free(Claimed(words, b), c) <==> Free(words, c) && c != b { ClaimedFrees(words, b, c); }
  }

  lemma ReleasedGrows(words: seq<u64>, b: nat, n: nat)
    requires b / 64 < |words|
    ensures b < n ==> FreeBelow(Released(words, b), n) == FreeBelow(words, n) + {b}
    ensures b < n && Tight(words, n) ==> Tight(Released(words, b), n)
  {
    forall c: nat ensures Free(Released(words, b), c) <==> Free(words, c) || c == b { ReleasedFrees(words, b, c); }
  }

  /** A bitmap is its free bits. */
  lemma FreeDetermines(a: seq<u64>, b: seq<u64>)
    requires |a| == |b| && forall c: nat :: Free(a, c) <==> Free(b, c)
    ensures a == b
  {
    forall i: nat | i < |a| ensures a[i] == b[i] {
      forall k: nat ensures Bit(a[i], k) == Bit(b[i], k) {
        BitAsFree(a, i, k);
        BitAsFree(b, i, k);
      }
      BitsDetermine(a[i], b[i]);
    }
  }

  lemma BitAsFree(words: seq<u64>, i: nat, k: nat)
    requires i < |words|
    ensures Bit(words[i], k) <==> k < 64 && Free(words, 64 * i + k)
  {
    WordSize();
    if Bit(words[i], k) { BitsEndAt(64, words[i], k); }
  }

  /** Releasing a claimed block restores the bitmap word for word, and so does claiming a released one. */
  lemma ClaimReleaseInverse(words: seq<u64>, b: nat)
    requires b / 64 < |words|
    ensures Free(words, b) ==> Released(Claimed(words, b), b) == words
    ensures !Free(words, b) ==> Claimed(Released(words, b), b) == words
  {
    hide Free, Claimed, Released;
    var there, back := Claimed(words, b), Released(words, b);
    forall c: nat
      ensures Free(Released(there, b), c) <==> Free(words, c) || c == b
      ensures Free(Claimed(back, b), c) <==> Free(words, c) && c != b
    {
      ClaimedFrees(words, b, c);
      ReleasedFrees(words, b, c);
      ReleasedFrees(there, b, c);
      ClaimedFrees(back, b, c);
    }
    if Free(words, b) {
      FreeDetermines(Released(there, b), words);
    } else {
      FreeDetermines(Claimed(back, b), words);
    }
  }

  // ----- counting free blocks word by word -----

  /** The sum of the population counts of the words. */
  function PopCount(words: seq<u64>): nat {
    if words == [] then 0 else PopCount(words[..|words| - 1]) + CountOnes(words[|words| - 1])
  }

  function CountFree(words: seq<u64>, n: nat): nat {
    if n == 0 then 0 else CountFree(words, n - 1) + if Free(words, n - 1) then 1 else 0
  }

  lemma {:induction false} FreeAreCounted(words: seq<u64>, n: nat)
    ensures |FreeBelow(words, n)| == CountFree(words, n)
  {
    hide Free;
    if n == 0 {
      assert FreeBelow(words, n) == {};
    } else {
      FreeAreCounted(words, n - 1);
      assert FreeBelow(words, n) == FreeBelow(words, n - 1) + if Free(words, n - 1) then {n - 1} else {};
    }
  }

  lemma {:induction false} FreeAndTaken(words: seq<u64>, n: nat)
    ensures |FreeBelow(words, n)| + |TakenBelow(words, n)| == n
  {
    hide Free;
    if n > 0 {
      FreeAndTaken(words, n - 1);
      if Free(words, n - 1) {
        assert FreeBelow(words, n) == FreeBelow(words, n - 1) + {n - 1};
        assert TakenBelow(words, n) == TakenBelow(words, n - 1);
      } else {
        assert FreeBelow(words, n) == FreeBelow(words, n - 1);
        assert TakenBelow(words, n) == TakenBelow(words, n - 1) + {n - 1};
      }
    }
  }

  lemma {:induction false} CountIntoWord(words: seq<u64>, j: nat, i: nat)
    requires j < |words| && i <= 64
    ensures CountFree(words, 64 * j + i) == CountFree(words, 64 * j) + CountBelow(words[j], i)
  {
    if i > 0 {
      CountIntoWord(words, j, i - 1);
      var b := 64 * j + i - 1;
      assert b / 64 == j && b % 64 == i - 1;
    }
  }

  lemma {:induction false} CountPrefix(words: seq<u64>, n: nat, k: nat)
    requires n <= |words| && k <= 64 * n
    ensures CountFree(words[..n], k) == CountFree(words, k)
  {
    if k > 0 { CountPrefix(words, n, k - 1); }
  }

  lemma {:induction false} PopCountCounts(words: seq<u64>)
    ensures PopCount(words) == CountFree(words, 64 * |words|)
  {
    if words != [] {
      var n := |words| - 1;
      PopCountCounts(words[..n]);
      CountPrefix(words, n, 64 * n);
      CountIntoWord(words, n, 64);
      WordSize();
      CountFromEitherEnd(words[n], 64);
    }
  }

  /** In a tight bitmap the population counts add up to the number of free blocks. */
  lemma PopCountIsFreeCount(words: seq<u64>, total: nat)
    requires Shape(words, total)
    ensures Tight(words, total) ==> PopCount(words) == |FreeBelow(words, total)|
  {
    PopCountCounts(words);
    FreeAreCounted(words, 64 * |words|);
    if Tight(words, total) {
      assert FreeBelow(words, 64 * |words|) == FreeBelow(words, total);
    }
  }

  // ----- the initial bitmap -----

  /** Word `i` of a fresh bitmap over `total` blocks: all ones, or the low `total % 64` in the last word. */
  function InitialWord(i: nat, total: nat): u64 {
    if i == (total + 63) / 64 - 1 && total % 64 != 0 then Shifted(total % 64) - 1 else U64_MAX
  }

  lemma InitialWordBits(i: nat, total: nat, k: nat)
    requires i < (total + 63) / 64 && k < 64
    ensures Bit(InitialWord(i, total), k) <==> 64 * i + k < total
  {
    WordSize();
    BitLowMask(total % 64, k);
    BitLowMask(64, k);
  }

  /** A fresh bitmap marks exactly the blocks of the pool as free. */
  lemma InitialIsAllFree(words: seq<u64>, total: nat)
    requires Shape(words, total) && forall i :: 0 <= i < |words| ==> words[i] == InitialWord(i, total)
    ensures forall b: nat :: Free(words, b) <==> b < total
    ensures Tight(words, total)
  {
    forall b: nat ensures Free(words, b) <==> b < total {
      if b / 64 < |words| { InitialWordBits(b / 64, total, b % 64); }
    }
  }
}
