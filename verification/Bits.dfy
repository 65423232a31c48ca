/** Machine words bit by bit: the masks, the lowest set bit and the population count that the
    block bitmap and the ring buffer compute with. A 64-bit word is a natural number below 2^64. */
module Bits {
  import opened MachineInts

  function Pow2(k: nat): (r: nat)
    ensures r > 0
  {
    if k == 0 then 1 else 2 * Pow2(k - 1)
  }

  /** Bit `i` of a word, counted from the least significant one. */
  predicate Bit(w: nat, i: nat) {
    if i == 0 then w % 2 == 1 else Bit(w / 2, i - 1)
  }

  function And(a: nat, b: nat): nat {
    if a == 0 || b == 0 then 0
    else 2 * And(a / 2, b / 2) + if a % 2 == 1 && b % 2 == 1 then 1 else 0
  }

  function Or(a: nat, b: nat): nat {
    if a == 0 then b else if b == 0 then a
    else 2 * Or(a / 2, b / 2) + if a % 2 == 1 || b % 2 == 1 then 1 else 0
  }

  /** The complement of a 64-bit word. */
  function Not64(w: u64): u64 {
    U64_MAX - w
  }

  /** The position of the lowest set bit. */
  function TrailingZeros(w: nat): nat
    requires w > 0
  {
    if w % 2 == 1 then 0 else 1 + TrailingZeros(w / 2)
  }

  function CountOnes(w: nat): nat {
    if w == 0 then 0 else w % 2 + CountOnes(w / 2)
  }

  // ----- powers of two -----

  lemma {:induction false} Pow2Adds(a: nat, b: nat)
    ensures Pow2(a + b) == Pow2(a) * Pow2(b)
  {
    if a > 0 {
      Pow2Adds(a - 1, b);
      DoubleProduct(Pow2(a - 1), Pow2(b));
      assert Pow2(a + b) == 2 * Pow2(a - 1 + b);
      hide Pow2;
    }
  }

  lemma DoubleProduct(x: nat, y: nat)
    ensures 2 * (x * y) == (2 * x) * y
  {
  }

  lemma {:induction false} Pow2Grows(a: nat, b: nat)
    requires a <= b
    ensures Pow2(a) <= Pow2(b)
    ensures a < b ==> Pow2(a) < Pow2(b)
  {
    if a < b {
      Pow2Grows(a, b - 1);
    }
  }

  lemma WordSize()
    ensures Pow2(6) == 64
    ensures Pow2(64) == TWO_64
  {
    assert Pow2(4) == 16;
    assert Pow2(6) == 64 by { assert Pow2(5) == 32; }
    assert Pow2(8) == 256 by { assert Pow2(7) == 128; }
    Pow2Adds(8, 8);
    assert Pow2(16) == 65536;
    Pow2Adds(16, 16);
    assert Pow2(32) == 65536 * 65536;
    Pow2Adds(32, 32);
  }

  // ----- what each operation does to each bit -----

  lemma {:induction false} ZeroHasNoBit(i: nat)
    ensures !Bit(0, i)
  {
    if i > 0 { ZeroHasNoBit(i - 1); }
  }

  lemma {:induction false} BitAnd(a: nat, b: nat, i: nat)
    ensures Bit(And(a, b), i) <==> Bit(a, i) && Bit(b, i)
    decreases a
  {
    if a == 0 || b == 0 {
      ZeroHasNoBit(i);
    } else if i > 0 {
      BitAnd(a / 2, b / 2, i - 1);
    }
  }

  lemma {:induction false} BitOr(a: nat, b: nat, i: nat)
    ensures Bit(Or(a, b), i) <==> Bit(a, i) || Bit(b, i)
    decreases a
  {
    if a == 0 || b == 0 {
      ZeroHasNoBit(i);
    } else if i > 0 {
      BitOr(a / 2, b / 2, i - 1);
    }
  }

  lemma {:induction false} BitPow2(k: nat, i: nat)
    ensures Bit(Pow2(k), i) <==> i == k
  {
    if i > 0 && k > 0 {
      BitPow2(k - 1, i - 1);
    } else if i > 0 {
      ZeroHasNoBit(i - 1);
    }
  }

  lemma {:induction false} BitComplement(n: nat, w: nat, i: nat)
    requires w < Pow2(n)
    ensures Bit(Pow2(n) - 1 - w, i) <==> i < n && !Bit(w, i)
  {
    if n == 0 {
      ZeroHasNoBit(i);
    } else if i > 0 {
      assert (Pow2(n) - 1 - w) / 2 == Pow2(n - 1) - 1 - w / 2;
      BitComplement(n - 1, w / 2, i - 1);
    }
  }

  lemma BitNot64(w: u64, i: nat)
    ensures Bit(Not64(w), i) <==> i < 64 && !Bit(w, i)
  {
    WordSize();
    BitComplement(64, w, i);
  }

  /** The mask of the lowest `k` bits. */
  lemma BitLowMask(k: nat, i: nat)
    ensures Bit(Pow2(k) - 1, i) <==> i < k
  {
    BitComplement(k, 0, i);
    ZeroHasNoBit(i);
  }

  /** Adding a power of two above all bits sets just that bit. */
  lemma {:induction false} BitOnTop(k: nat, w: nat, i: nat)
    requires w < Pow2(k)
    ensures Bit(w + Pow2(k), i) <==> Bit(w, i) || i == k
  {
    if k == 0 {
      BitPow2(0, i);
      ZeroHasNoBit(i);
    } else {
      assert (w + Pow2(k)) / 2 == w / 2 + Pow2(k - 1) && (w + Pow2(k)) % 2 == w % 2;
      if i > 0 { BitOnTop(k - 1, w / 2, i - 1); }
    }
  }

  /** The lowest `k` bits are all set. */
  ghost predicate LowBitsSet(w: nat, k: nat) {
    forall i: nat :: i < k ==> Bit(w, i)
  }

  /** A word masked to its lowest `k` bits is the mask exactly when those bits are all set. */
  lemma MaskedIsMask(w: nat, k: nat)
    ensures And(w, Pow2(k) - 1) == Pow2(k) - 1 <==> LowBitsSet(w, k)
  {
    var mask := Pow2(k) - 1;
    if And(w, mask) == mask {
      forall i: nat | i < k ensures Bit(w, i) {
        BitAnd(w, mask, i);
        BitLowMask(k, i);
      }
    } else if LowBitsSet(w, k) {
      forall i: nat ensures Bit(And(w, mask), i) == Bit(mask, i) {
        BitAnd(w, mask, i);
        BitLowMask(k, i);
      }
      BitsDetermine(And(w, mask), mask);
    }
  }

  lemma {:induction false} BitsEndAt(n: nat, w: nat, i: nat)
    requires w < Pow2(n) && Bit(w, i)
    ensures i < n
  {
    if n == 0 {
      ZeroHasNoBit(i);
    } else if i > 0 {
      BitsEndAt(n - 1, w / 2, i - 1);
    }
  }

  lemma {:induction false} OrStaysBelow(n: nat, a: nat, b: nat)
    requires a < Pow2(n) && b < Pow2(n)
    ensures Or(a, b) < Pow2(n)
  {
    if n > 0 && a > 0 && b > 0 { OrStaysBelow(n - 1, a / 2, b / 2); }
  }

  lemma {:induction false} AndStaysBelow(a: nat, b: nat)
    ensures And(a, b) <= a
  {
    if a > 0 && b > 0 { AndStaysBelow(a / 2, b / 2); }
  }

  /** The lowest set bit is set, and nothing below it is. */
  lemma {:induction false} LowestSetBit(w: nat, i: nat)
    requires w > 0
    ensures Bit(w, TrailingZeros(w))
    ensures i < TrailingZeros(w) ==> !Bit(w, i)
  {
    if w % 2 == 0 {
      LowestSetBit(w / 2, if i > 0 then i - 1 else 0);
    }
  }

  /** A word is its bits. */
  lemma {:induction false} BitsDetermine(a: nat, b: nat)
    requires forall i: nat :: Bit(a, i) == Bit(b, i)
    ensures a == b
  {
    if a > 0 || b > 0 {
      assert Bit(a, 0) == Bit(b, 0);
      forall i: nat ensures Bit(a / 2, i) == Bit(b / 2, i) {
        assert Bit(a, i + 1) == Bit(b, i + 1);
      }
      BitsDetermine(a / 2, b / 2);
    }
  }

  // ----- the two words the allocator writes back -----

  /** `current & !(1 << k)`. */
  function ClearBit(w: u64, k: nat): u64
    requires k < 64
  {
    AndStaysBelow(w, Not64(Shifted(k)));
    And(w, Not64(Shifted(k)))
  }

  /** `current | (1 << k)`. */
  function SetBit(w: u64, k: nat): u64
    requires k < 64
  {
    WordSize();
    OrStaysBelow(64, w, Shifted(k));
    Or(w, Shifted(k))
  }

  /** `1 << k` in 64 bits. */
  function Shifted(k: nat): u64
    requires k < 64
  {
    WordSize();
    Pow2Grows(k, 64);
    Pow2(k)
  }

  lemma ClearBitClears(w: u64, k: nat, i: nat)
    requires k < 64
    ensures Bit(ClearBit(w, k), i) <==> Bit(w, i) && i != k
  {
    BitAnd(w, Not64(Shifted(k)), i);
    BitNot64(Shifted(k), i);
    BitPow2(k, i);
    WordSize();
    if Bit(w, i) { BitsEndAt(64, w, i); }
  }

  lemma SetBitSets(w: u64, k: nat, i: nat)
    requires k < 64
    ensures Bit(SetBit(w, k), i) <==> Bit(w, i) || i == k
  {
    BitOr(w, Shifted(k), i);
    BitPow2(k, i);
  }

  // ----- masks as arithmetic -----

  /** Masking with `2^k - 1` is the remainder modulo `2^k`. */
  lemma {:induction false} MaskIsRemainder(x: nat, k: nat)
    ensures And(x, Pow2(k) - 1) == Mod(x, Pow2(k))
    decreases k
  {
    if k > 0 {
      hide And, Mod;
      var p := Pow2(k - 1);
      MaskIsRemainder(x / 2, k - 1);
      HalvedRemainder(x, p);
      LowMaskUnfolds(x, p);
    }
  }

  lemma LowMaskUnfolds(x: nat, p: nat)
    requires p > 0
    ensures And(x, 2 * p - 1) == 2 * And(x / 2, p - 1) + x % 2
  {
    assert (2 * p - 1) / 2 == p - 1;
  }

  lemma HalvedRemainder(x: nat, p: nat)
    requires p > 0
    ensures Mod(x, 2 * p) == 2 * Mod(x / 2, p) + x % 2
  {
    hide Mod;
    ModParts(x / 2, p);
    var q := x / 2 / p;
    assert 2 * (q * p) == q * (2 * p);
    ModUnique(q, 2 * Mod(x / 2, p) + x % 2, x, 2 * p);
  }

  /** Clearing the lowest `k` bits rounds down to a multiple of `2^k`. */
  lemma {:induction false} HighMaskRoundsDown(n: nat, x: nat, k: nat)
    requires k <= n && x < Pow2(n)
    ensures Pow2(k) <= Pow2(n)
    ensures And(x, Pow2(n) - Pow2(k)) == x - Mod(x, Pow2(k))
    decreases n
  {
    hide Mod;
    Pow2Grows(k, n);
    if k == 0 {
      FullMask(n, x);
      ModParts(x, 1);
    } else {
      hide And;
      HighMaskRoundsDown(n - 1, x / 2, k - 1);
      HighMaskStep(x, Pow2(n - 1), Pow2(k - 1));
    }
  }

  lemma HighMaskStep(x: nat, m: nat, p: nat)
    requires 0 < p <= m && And(x / 2, m - p) == x / 2 - Mod(x / 2, p)
    ensures And(x, 2 * m - 2 * p) == x - Mod(x, 2 * p)
  {
    hide And, Mod;
    HalvedRemainder(x, p);
    HighMaskUnfolds(x, m, p);
  }

  lemma HighMaskUnfolds(x: nat, m: nat, p: nat)
    requires p <= m
    ensures And(x, 2 * m - 2 * p) == 2 * And(x / 2, m - p)
  {
    assert (2 * m - 2 * p) / 2 == m - p;
  }

  lemma {:induction false} FullMask(n: nat, x: nat)
    requires x < Pow2(n)
    ensures And(x, Pow2(n) - 1) == x
  {
    if n > 0 && x > 0 { FullMask(n - 1, x / 2); }
  }

  /** `(size + 63) & !63`. */
  function AlignUp64(size: nat): nat
    requires size + 63 <= U64_MAX
  {
    And(size + 63, Not64(63))
  }

  /** Aligning gives the least multiple of 64 that holds `size`. */
  lemma AlignUp64IsLeast(size: nat)
    requires size + 63 <= U64_MAX
    ensures AlignUp64(size) % 64 == 0 && size <= AlignUp64(size) < size + 64
  {
    hide And, Pow2;
    WordSize();
    HighMaskRoundsDown(64, size + 63, 6);
  }

  // ----- population count -----

  function OnesBelow(w: nat, n: nat): set<nat> {
    set i | 0 <= i < n && Bit(w, i)
  }

  /** The population count is the number of set bits. */
  lemma {:induction false} CountOnesCounts(n: nat, w: nat)
    requires w < Pow2(n)
    ensures |OnesBelow(w, n)| == CountOnes(w)
  {
    OnesAreCounted(w, n);
    CountFromEitherEnd(w, n);
  }

  /** The set bits below `n`, counted from the top. */
  function CountBelow(w: nat, n: nat): nat {
    if n == 0 then 0 else CountBelow(w, n - 1) + if Bit(w, n - 1) then 1 else 0
  }

  lemma {:induction false} OnesAreCounted(w: nat, n: nat)
    ensures |OnesBelow(w, n)| == CountBelow(w, n)
  {
    hide Bit;
    if n == 0 {
      assert OnesBelow(w, n) == {};
    } else {
      OnesAreCounted(w, n - 1);
      assert OnesBelow(w, n) == OnesBelow(w, n - 1) + if Bit(w, n - 1) then {n - 1} else {};
    }
  }

  lemma {:induction false} CountFromEitherEnd(w: nat, n: nat)
    requires w < Pow2(n)
    ensures CountBelow(w, n) == CountOnes(w)
  {
    if n > 0 {
      CountFromEitherEnd(w / 2, n - 1);
      LowBitFirst(w, n);
    }
  }

  lemma {:induction false} LowBitFirst(w: nat, n: nat)
    requires n > 0
    ensures CountBelow(w, n) == w % 2 + CountBelow(w / 2, n - 1)
  {
    if n > 1 { LowBitFirst(w, n - 1); }
  }
}
