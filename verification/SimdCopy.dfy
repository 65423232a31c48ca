/** The chunked copy, zero, compare and add loops over raw memory. A pointer is an array and an
    offset; a wide load or store moves a whole chunk at once. */
module SimdCopy {
  import opened MachineInts
  import opened Bits

  type byte = x: nat | x < 256

  /** `after` is `before` except that `n` bytes at `at` are those of `src` at `from`. */
  ghost predicate Moved(before: seq<byte>, after: seq<byte>, at: nat, src: seq<byte>, from: nat, n: nat)
    requires from + n <= |src|
  {
    |before| == |after| &&
    forall i :: 0 <= i < |after| ==> after[i] == if at <= i < at + n then src[from + (i - at)] else before[i]
  }

  /** Two adjacent moves are one move. */
  lemma MovedJoins(before: seq<byte>, mid: seq<byte>, after: seq<byte>,
                   at: nat, src: seq<byte>, from: nat, m: nat, n: nat)
    requires from + m + n <= |src|
    requires Moved(before, mid, at, src, from, m) && Moved(mid, after, at + m, src, from + m, n)
    ensures Moved(before, after, at, src, from, m + n)
  {
  }

  /** One load and one store of `n` bytes. */
  method MoveChunk(dst: array<byte>, at: nat, src: array<byte>, from: nat, n: nat)
    requires dst != src && at + n <= dst.Length && from + n <= src.Length
    modifies dst
    ensures Moved(old(dst[..]), dst[..], at, src[..], from, n)
  {
    forall i | at <= i < at + n {
      dst[i] := src[from + (i - at)];
    }
  }

  // ----- the 32-byte loops -----

  /** Copies exactly `len` bytes. */
  method CopyAvx2(dst: array<byte>, at: nat, src: array<byte>, from: nat, len: nat)
    requires dst != src && at + len <= dst.Length && from + len <= src.Length
    modifies dst
    ensures Moved(old(dst[..]), dst[..], at, src[..], from, len)
  {
    var offset := 0;
    while offset + 32 <= len
      invariant 0 <= offset <= len
      invariant Moved(old(dst[..]), dst[..], at, src[..], from, offset)
    {
      ghost var mid := dst[..];
      MoveChunk(dst, at + offset, src, from + offset, 32);
      MovedJoins(old(dst[..]), mid, dst[..], at, src[..], from, offset, 32);
      offset := offset + 32;
    }
    while offset < len
      invariant 0 <= offset <= len
      invariant Moved(old(dst[..]), dst[..], at, src[..], from, offset)
    {
      dst[at + offset] := src[from + offset];
      offset := offset + 1;
    }
  }

  /** Zeroes exactly `len` bytes. */
  method ZeroAvx2(dst: array<byte>, at: nat, len: nat)
    requires at + len <= dst.Length
    modifies dst
    ensures forall i :: 0 <= i < dst.Length ==> dst[i] == if at <= i < at + len then 0 else old(dst[i])
  {
    var offset := 0;
    while offset + 32 <= len
      invariant 0 <= offset <= len
      invariant forall i :: 0 <= i < dst.Length ==> dst[i] == if at <= i < at + offset then 0 else old(dst[i])
    {
      forall i | at + offset <= i < at + offset + 32 {
        dst[i] := 0;
      }
      offset := offset + 32;
    }
    while offset < len
      invariant 0 <= offset <= len
      invariant forall i :: 0 <= i < dst.Length ==> dst[i] == if at <= i < at + offset then 0 else old(dst[i])
    {
      dst[at + offset] := 0;
      offset := offset + 1;
    }
  }

  /** The lanes of a vector comparison, one bit a byte; equal chunks give the all-ones mask. */
  function CompareMask(a: seq<byte>, b: seq<byte>, lanes: nat): nat
    requires lanes <= |a| && lanes <= |b|
  {
    if lanes == 0 then 0
    else CompareMask(a, b, lanes - 1) + if a[lanes - 1] == b[lanes - 1] then Pow2(lanes - 1) else 0
  }

  /** The mask is all ones exactly when every lane is equal. */
  lemma {:induction false} FullMaskMeansEqual(a: seq<byte>, b: seq<byte>, lanes: nat)
    requires lanes <= |a| && lanes <= |b|
    ensures CompareMask(a, b, lanes) < Pow2(lanes)
    ensures CompareMask(a, b, lanes) == Pow2(lanes) - 1 <==> forall i :: 0 <= i < lanes ==> a[i] == b[i]
  {
    if lanes > 0 { FullMaskMeansEqual(a, b, lanes - 1); }
  }

  lemma {:induction false} LaneBits(a: seq<byte>, b: seq<byte>, lanes: nat, i: nat)
    requires lanes <= |a| && lanes <= |b|
    ensures Bit(CompareMask(a, b, lanes), i) <==> i < lanes && a[i] == b[i]
  {
    hide Bit;
    if lanes == 0 {
      ZeroHasNoBit(i);
    } else {
      LaneBits(a, b, lanes - 1, i);
      FullMaskMeansEqual(a, b, lanes - 1);
      BitOnTop(lanes - 1, CompareMask(a, b, lanes - 1), i);
    }
  }

  /** The first `n` bytes at the two pointers are equal. */
  ghost predicate Same(a: array<byte>, i: nat, b: array<byte>, j: nat, n: nat)
    requires i + n <= a.Length && j + n <= b.Length
    reads a, b
  {
    forall p :: i <= p < i + n ==> a[p] == b[j + (p - i)]
  }

  /** Compares exactly `len` bytes. */
  method CompareAvx2(a: array<byte>, i: nat, b: array<byte>, j: nat, len: nat) returns (equal: bool)
    requires i + len <= a.Length && j + len <= b.Length
    ensures equal <==> Same(a, i, b, j, len)
  {
    hide Pow2, CompareMask;
    var offset := 0;
    while offset + 32 <= len
      invariant 0 <= offset <= len
      invariant Same(a, i, b, j, offset)
    {
      var va, vb := a[i + offset..i + offset + 32], b[j + offset..j + offset + 32];
      FullMaskMeansEqual(va, vb, 32);
      if CompareMask(va, vb, 32) != Pow2(32) - 1 {
        var k :| 0 <= k < 32 && va[k] != vb[k];
        assert a[i + offset + k] != b[j + (i + offset + k - i)];
        return false;
      }
      forall p | i + offset <= p < i + offset + 32 ensures a[p] == b[j + (p - i)] {
        assert va[p - i - offset] == vb[p - i - offset];
      }
      offset := offset + 32;
    }
    while offset < len
      invariant 0 <= offset <= len
      invariant Same(a, i, b, j, offset)
    {
      if a[i + offset] != b[j + offset] {
        assert a[i + offset] != b[j + (i + offset - i)];
        return false;
      }
      offset := offset + 1;
    }
    return true;
  }

  /** 64-bit addition with wrap-around. */
  function WrappingAdd(x: u64, y: u64): (r: u64)
    ensures IsWrappedSum(r, x, y)
  {
    (x + y) % TWO_64
  }

  /** The sum, less 2^64 exactly when it does not fit in 64 bits. */
  predicate IsWrappedSum(r: nat, x: nat, y: nat) {
    r == if x + y >= 0x1_0000_0000_0000_0000 then x + y - 0x1_0000_0000_0000_0000 else x + y
  }

  method AddU64Batch(a: array<u64>, b: array<u64>, result: array<u64>)
    requires a.Length == b.Length == result.Length && result != a && result != b
    modifies result
    ensures forall i :: 0 <= i < result.Length ==> IsWrappedSum(result[i], a[i], b[i])
  {
    var len, i := a.Length, 0;
    while i + 4 <= len
      invariant 0 <= i <= len
      invariant forall k :: 0 <= k < i ==> result[k] == WrappingAdd(a[k], b[k])
    {
      forall k | i <= k < i + 4 {
        result[k] := WrappingAdd(a[k], b[k]);
      }
      i := i + 4;
    }
    while i < len
      invariant 0 <= i <= len
      invariant forall k :: 0 <= k < i ==> result[k] == WrappingAdd(a[k], b[k])
    {
      result[i] := WrappingAdd(a[i], b[i]);
      i := i + 1;
    }
  }

  // ----- the copy that dispatches on the length -----

  /** How many bytes `memcpy_simd_optimized` moves for a request of `len`. */
  function Touched(len: nat): nat {
    if len <= 4 then len
    else if len <= 8 then 8
    else if len <= 16 then 16
    else (len + 31) / 32 * 32
  }

  /** The copy covers the request, runs at most 31 bytes past it, and stops exactly at its end for
      lengths 0 to 4, 8, 16 and the multiples of 32. */
  lemma OverrunBounds(len: nat)
    ensures len <= Touched(len) <= len + 31
    ensures Touched(len) == len <==> len <= 4 || len == 8 || len == 16 || len % 32 == 0
  {
  }

  /** The lengths the copy can move: up to 4 bytes exactly, a word, and one or more vectors. */
  predicate IsWidth(n: nat) {
    n <= 4 || n == 8 || n == 16 || n % 32 == 0
  }

  /** It moves the shortest of them that covers the request. */
  lemma MovesLeastWidth(len: nat, width: nat)
    ensures IsWidth(Touched(len)) && len <= Touched(len)
    ensures IsWidth(width) && len <= width ==> Touched(len) <= width
  {
  }

  /** Within a block whose size is a multiple of 64, a request that fits never runs out of the block. */
  lemma OverrunStaysInBlock(len: nat, blockSize: nat)
    requires len <= blockSize && blockSize % 64 == 0
    ensures Touched(len) <= blockSize
  {
  }

  /** The whole 32-byte chunks that cover `len` bytes. */
  function Chunks(len: nat): nat {
    (len + 31) / 32 * 32
  }

  lemma ChunksSplit(len: nat, width: nat)
    requires width == 32 || width == 64
    ensures Chunks(len) == len / width * width + Chunks(len % width)
    ensures len % width == 0 ==> Chunks(len % width) == 0
    ensures 0 < len % width <= 32 ==> Chunks(len % width) == 32
  {
  }

  method MemcpyAvx(dst: array<byte>, at: nat, src: array<byte>, from: nat, len: nat)
    requires dst != src && 0 < len <= 32
    requires at + 32 <= dst.Length && from + 32 <= src.Length
    modifies dst
    ensures Moved(old(dst[..]), dst[..], at, src[..], from, 32)
  {
    MoveChunk(dst, at, src, from, 32);
  }

  /** One 32-byte chunk, and a second one for lengths above 32. */
  method MemcpyAvx2(dst: array<byte>, at: nat, src: array<byte>, from: nat, len: nat)
    requires dst != src && 0 < len <= 64
    requires at + Chunks(len) <= dst.Length && from + Chunks(len) <= src.Length
    modifies dst
    ensures Moved(old(dst[..]), dst[..], at, src[..], from, Chunks(len))
  {
    MoveChunk(dst, at, src, from, 32);
    if len > 32 {
      ghost var mid := dst[..];
      MoveChunk(dst, at + 32, src, from + 32, 32);
      MovedJoins(old(dst[..]), mid, dst[..], at, src[..], from, 32, 32);
    }
  }

  /** Builds with AVX-512: whole 64-byte chunks, then one copy of what remains. */
  method MemcpyLargeAvx512(dst: array<byte>, at: nat, src: array<byte>, from: nat, len: nat)
    requires dst != src && 64 < len
    requires at + Chunks(len) <= dst.Length && from + Chunks(len) <= src.Length
    modifies dst
    ensures Moved(old(dst[..]), dst[..], at, src[..], from, Chunks(len))
  {
    hide Moved, Chunks;
    ChunksSplit(len, 64);
    NothingMoved(dst[..], at, src[..], from);
    var offset := 0;
    for k := 0 to len / 64
      invariant offset == k * 64 <= len
      invariant Moved(old(dst[..]), dst[..], at, src[..], from, offset)
    {
      ghost var mid := dst[..];
      MoveChunk(dst, at + offset, src, from + offset, 64);
      MovedJoins(old(dst[..]), mid, dst[..], at, src[..], from, offset, 64);
      offset := offset + 64;
    }
    var remaining := len % 64;
    if remaining > 0 {
      ghost var mid := dst[..];
      MemcpyAvx2(dst, at + offset, src, from + offset, remaining);
      MovedJoins(old(dst[..]), mid, dst[..], at, src[..], from, offset, Chunks(remaining));
    }
  }

  /** Other builds: whole 32-byte chunks, then one copy of what remains. */
  method MemcpyLargeFallback(dst: array<byte>, at: nat, src: array<byte>, from: nat, len: nat)
    requires dst != src && 64 < len
    requires at + Chunks(len) <= dst.Length && from + Chunks(len) <= src.Length
    modifies dst
    ensures Moved(old(dst[..]), dst[..], at, src[..], from, Chunks(len))
  {
    hide Moved;
    NothingMoved(dst[..], at, src[..], from);
    var offset := 0;
    for k := 0 to len / 32
      invariant offset == k * 32 <= len
      invariant Moved(old(dst[..]), dst[..], at, src[..], from, offset)
    {
      ghost var mid := dst[..];
      MemcpyAvx2(dst, at + offset, src, from + offset, 32);
      MovedJoins(old(dst[..]), mid, dst[..], at, src[..], from, offset, 32);
      offset := offset + 32;
    }
    var remaining := len % 32;
    if remaining > 0 {
      ghost var mid := dst[..];
      MemcpyAvx(dst, at + offset, src, from + offset, remaining);
      MovedJoins(old(dst[..]), mid, dst[..], at, src[..], from, offset, 32);
    }
  }

  method MemcpySmall(dst: array<byte>, at: nat, src: array<byte>, from: nat, len: nat)
    requires dst != src && 1 <= len <= 8
    requires at + Touched(len) <= dst.Length && from + Touched(len) <= src.Length
    modifies dst
    ensures Moved(old(dst[..]), dst[..], at, src[..], from, Touched(len))
  {
    if len == 1 {
      dst[at] := src[from];
    } else if len == 2 {
      MoveChunk(dst, at, src, from, 2);
    } else if len == 3 {
      MoveChunk(dst, at, src, from, 2);
      dst[at + 2] := src[from + 2];
    } else if len == 4 {
      MoveChunk(dst, at, src, from, 4);
    } else {
      MoveChunk(dst, at, src, from, 8);
    }
  }

  /** The dispatching copy writes `Touched(len)` bytes and no other: the requested prefix and, past
      it, whatever follows the source. */
  method MemcpySimdOptimized(dst: array<byte>, at: nat, src: array<byte>, from: nat, len: nat, avx512: bool)
    requires dst != src
    requires at + Touched(len) <= dst.Length && from + Touched(len) <= src.Length
    modifies dst
    ensures Moved(old(dst[..]), dst[..], at, src[..], from, Touched(len))
    ensures forall p :: at <= p < at + len ==> dst[p] == src[from + (p - at)]
  {
    hide Moved;
    if len == 0 {
    } else if len <= 8 {
      MemcpySmall(dst, at, src, from, len);
    } else if len <= 16 {
      MoveChunk(dst, at, src, from, 16);
    } else if len <= 32 {
      MemcpyAvx(dst, at, src, from, len);
    } else if len <= 64 {
      MemcpyAvx2(dst, at, src, from, len);
    } else if avx512 {
      MemcpyLargeAvx512(dst, at, src, from, len);
    } else {
      MemcpyLargeFallback(dst, at, src, from, len);
    }
    NothingMoved(old(dst[..]), at, src[..], from);
    MovedPrefix(old(dst[..]), dst[..], at, src[..], from, len);
  }

  lemma NothingMoved(bytes: seq<byte>, at: nat, src: seq<byte>, from: nat)
    requires from <= |src|
    ensures Moved(bytes, bytes, at, src, from, 0)
  {
  }

  lemma MovedPrefix(before: seq<byte>, after: seq<byte>, at: nat, src: seq<byte>, from: nat, len: nat)
    requires at + Touched(len) <= |after| && from + Touched(len) <= |src|
    requires Moved(before, after, at, src, from, Touched(len))
    ensures len <= Touched(len)
    ensures forall p :: at <= p < at + len ==> after[p] == src[from + (p - at)]
  {
    hide Touched;
    OverrunBounds(len);
  }

  // ----- the comparison that dispatches on the length -----

  /** How many bytes the comparison looks at: lengths 5 to 7 are compared as whole 64-bit words,
      while the vector paths mask the lanes past `len` out. */
  function Compared(len: nat): nat {
    if 5 <= len <= 8 then 8 else len
  }

  method MemcmpSmall(a: array<byte>, i: nat, b: array<byte>, j: nat, len: nat) returns (equal: bool)
    requires 1 <= len <= 8 && i + Touched(len) <= a.Length && j + Touched(len) <= b.Length
    ensures equal <==> Same(a, i, b, j, Compared(len))
  {
    if len == 1 {
      equal := a[i] == b[j];
    } else if len == 2 {
      equal := a[i..i + 2] == b[j..j + 2];
    } else if len == 3 {
      equal := a[i..i + 2] == b[j..j + 2] && a[i + 2] == b[j + 2];
    } else if len == 4 {
      equal := a[i..i + 4] == b[j..j + 4];
    } else {
      equal := a[i..i + 8] == b[j..j + 8];
    }
  }

  /** One vector of 16 or 32 lanes, of which the first `len` are looked at. */
  method MemcmpLanes(a: array<byte>, i: nat, b: array<byte>, j: nat, lanes: nat, len: nat) returns (equal: bool)
    requires len <= lanes && i + lanes <= a.Length && j + lanes <= b.Length
    ensures equal <==> Same(a, i, b, j, len)
  {
    hide CompareMask, Pow2, And, Bit;
    var va, vb := a[i..i + lanes], b[j..j + lanes];
    var mask := CompareMask(va, vb, lanes);
    var validMask := Pow2(len) - 1;
    equal := And(mask, validMask) == validMask;
    MaskedIsMask(mask, len);
    if equal {
      forall p | i <= p < i + len ensures a[p] == b[j + (p - i)] {
        assert Bit(mask, p - i);
        LaneBits(va, vb, lanes, p - i);
      }
    } else {
      var k: nat :| k < len && !Bit(mask, k);
      LaneBits(va, vb, lanes, k);
      assert a[i + k] != b[j + (i + k - i)];
    }
  }

  method MemcmpLarge(a: array<byte>, i: nat, b: array<byte>, j: nat, len: nat) returns (equal: bool)
    requires 32 < len && i + Chunks(len) <= a.Length && j + Chunks(len) <= b.Length
    ensures equal <==> Same(a, i, b, j, len)
  {
    assert Same(a, i, b, j, 0);
    var chunks := len / 32;
    ChunksSplit(len, 32);
    hide Same, Chunks;
    for k := 0 to chunks
      invariant Same(a, i, b, j, k * 32)
    {
      var chunkEqual := MemcmpLanes(a, i + k * 32, b, j + k * 32, 32, 32);
      SameJoins(a, i, b, j, k * 32, 32, len);
      if !chunkEqual {
        return false;
      }
    }
    var remaining := len % 32;
    if remaining > 0 {
      equal := MemcmpLanes(a, i + chunks * 32, b, j + chunks * 32, 32, remaining);
      SameJoins(a, i, b, j, chunks * 32, remaining, len);
    } else {
      equal := true;
    }
  }

  /** Comparing on from an equal prefix. */
  lemma SameJoins(a: array<byte>, i: nat, b: array<byte>, j: nat, m: nat, n: nat, len: nat)
    requires m + n <= len && i + len <= a.Length && j + len <= b.Length && Same(a, i, b, j, m)
    ensures Same(a, i + m, b, j + m, n) <==> Same(a, i, b, j, m + n)
    ensures !Same(a, i + m, b, j + m, n) ==> !Same(a, i, b, j, len)
  {
    if !Same(a, i + m, b, j + m, n) {
      var p :| i + m <= p < i + m + n && a[p] != b[j + m + (p - (i + m))];
      assert a[p] != b[j + (p - i)];
    } else {
      forall p | i <= p < i + (m + n) ensures a[p] == b[j + (p - i)] {
        if i + m <= p { assert a[p] == b[j + m + (p - (i + m))]; }
      }
    }
  }

  /** The dispatching comparison. */
  method MemcmpSimdOptimized(a: array<byte>, i: nat, b: array<byte>, j: nat, len: nat) returns (equal: bool)
    requires i + Touched(len) <= a.Length && j + Touched(len) <= b.Length
    ensures equal <==> Same(a, i, b, j, if 5 <= len <= 7 then 8 else len)
  {
    if len == 0 {
      equal := true;
    } else if len <= 8 {
      equal := MemcmpSmall(a, i, b, j, len);
    } else if len <= 16 {
      equal := MemcmpLanes(a, i, b, j, 16, len);
    } else if len <= 32 {
      equal := MemcmpLanes(a, i, b, j, 32, len);
    } else {
      equal := MemcmpLarge(a, i, b, j, len);
    }
  }

  /** Looking at that many bytes answers for the requested ones, on all buffers, exactly when the
      length is not 5, 6 or 7. */
  lemma MemcmpIsExact(len: nat)
    ensures (forall a: seq<byte>, b: seq<byte> :: |a| >= Touched(len) && |b| >= Touched(len) ==>
      (a[..Compared(len)] == b[..Compared(len)] <==> a[..len] == b[..len])) <==> !(5 <= len <= 7)
  {
    if 5 <= len <= 7 {
      var a: seq<byte>, b: seq<byte> := [0, 0, 0, 0, 0, 0, 0, 0], [0, 0, 0, 0, 0, 0, 0, 1];
      assert a[..8][7] != b[..8][7] && a[..len] == b[..len];
      assert !(a[..Compared(len)] == b[..Compared(len)] <==> a[..len] == b[..len]);
    }
  }
}
