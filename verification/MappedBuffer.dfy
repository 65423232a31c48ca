/** The byte buffer as one thread drives it, with the copy it really uses. The mapped memory goes on
    behind the buffer for as far as a chunk can reach, and a caller's array for what lies behind a
    request. */
module MappedBuffer {
  import opened MachineInts
  import opened Circular
  import opened SimdCopy
  import opened ByteRing

  // ----- the copies, in one part or two -----

  /** How far behind its beginning the copies of a request touch the caller's memory. */
  function Reach(pos: nat, len: nat, size: nat): nat
    requires pos <= size
  {
    var first := Touched(FirstPart(pos, len, size));
    if pos + len <= size then first
    else
      var both := size - pos + Touched(len - (size - pos));
      if first > both then first else both
  }

  /** The source bytes from `from` on. The padding stands for bytes that no copy within reach touches. */
  function Padded(src: seq<byte>, from: nat): (r: seq<byte>)
    requires from <= |src|
    ensures |r| == |src| - from + RIM
  {
    src[from..] + seq(RIM, _ => 0)
  }

  /** The two copies of a write are the copying steps of the concurrent writer. */
  lemma CopiesAreSteps(before: seq<byte>, mid: seq<byte>, after: seq<byte>, src: seq<byte>, from: nat,
                       write: nat, len: nat, size: nat)
    requires write < size && len < size && |before| == size + RIM
    requires from + len <= |src| && from + Reach(write, len, size) <= |src|
    requires Moved(before, mid, write, src, from, Touched(FirstPart(write, len, size)))
    requires write + len <= size ==> after == mid
    requires write + len > size ==> Moved(mid, after, 0, src, from + (size - write), Touched(len - (size - write)))
    ensures after == AfterCopies(before, Padded(src, from), write, len, size, false)
  {
    hide Touched;
    var bytes := Padded(src, from);
    var steps := AfterCopies(before, bytes, write, len, size, false);
    assert forall k :: 0 <= k < |src| - from ==> bytes[k] == src[from + k];
    forall a | 0 <= a < |after| ensures after[a] == steps[a] {
    }
  }

  method CopyIn(mmap: array<byte>, size: nat, write: nat, src: array<byte>, from: nat, len: nat, avx512: bool)
    requires src != mmap && mmap.Length == size + RIM && write < size && len < size
    requires from + len <= src.Length && from + Reach(write, len, size) <= src.Length
    modifies mmap
    ensures mmap[..] == AfterCopies(old(mmap[..]), Padded(src[..], from), write, len, size, false)
  {
    hide Touched, Moved, AfterCopies;
    ghost var before := mmap[..];
    ghost var mid := before;
    OverrunBounds(FirstPart(write, len, size));
    if write + len <= size {
      MemcpySimdOptimized(mmap, write, src, from, len, avx512);
      mid := mmap[..];
    } else {
      var firstPart := size - write;
      OverrunBounds(len - firstPart);
      MemcpySimdOptimized(mmap, write, src, from, firstPart, avx512);
      mid := mmap[..];
      MemcpySimdOptimized(mmap, 0, src, from + firstPart, len - firstPart, avx512);
    }
    CopiesAreSteps(before, mid, mmap[..], src[..], from, write, len, size);
  }

  /** The byte that a read leaves `i` places behind the beginning of its destination. */
  function ByteRead(mem: seq<byte>, read: nat, len: nat, size: nat, i: nat): (b: byte)
    requires read < size && len < size && |mem| == size + RIM && i < Reach(read, len, size)
    ensures b in mem
  {
    OverrunBounds(FirstPart(read, len, size));
    if read + len > size then
      OverrunBounds(len - (size - read));
      if size - read <= i < size - read + Touched(len - (size - read)) then mem[i - (size - read)] else mem[read + i]
    else mem[read + i]
  }

  /** What a read to `at` leaves in place `p`. */
  function PlaceAfterRead(dst: seq<byte>, at: nat, mem: seq<byte>, read: nat, len: nat, size: nat, p: nat): byte
    requires read < size && len < size && |mem| == size + RIM && p < |dst|
  {
    if at <= p < at + Reach(read, len, size) then ByteRead(mem, read, len, size, p - at) else dst[p]
  }

  /** The caller's memory after a read to `at`. */
  function AfterRead(dst: seq<byte>, at: nat, mem: seq<byte>, read: nat, len: nat, size: nat): (r: seq<byte>)
    requires read < size && len < size && |mem| == size + RIM
    ensures |r| == |dst|
    ensures forall p: nat :: p < |dst| ==> r[p] == PlaceAfterRead(dst, at, mem, read, len, size, p)
  {
    seq(|dst|, p requires 0 <= p < |dst| => PlaceAfterRead(dst, at, mem, read, len, size, p))
  }

  /** Nothing outside the slice of `wanted` places at `at` has changed. */
  ghost predicate SliceOnly(before: seq<byte>, after: seq<byte>, at: nat, wanted: nat) {
    |before| == |after| && forall p :: 0 <= p < |before| && !(at <= p < at + wanted) ==> after[p] == before[p]
  }

  /** A read of `len` bytes into a slice of `wanted` leaves all memory outside the slice alone, whatever
      memory holds, exactly when its copies do not reach further than the slice. */
  lemma ReadStaysInSlice(read: nat, len: nat, size: nat, wanted: nat)
    requires read < size && len < size && len <= wanted
    ensures Reach(read, len, size) <= wanted <==>
      forall dst: seq<byte>, at: nat, mem: seq<byte> :: |mem| == size + RIM ==>
        SliceOnly(dst, AfterRead(dst, at, mem, read, len, size), at, wanted)
  {
    hide Reach, ByteRead;
    if Reach(read, len, size) > wanted {
      var dst: seq<byte> := seq(wanted + 1, _ => 0);
      var mem: seq<byte> := seq(size + RIM, _ => 1);
      var after := AfterRead(dst, 0, mem, read, len, size);
      assert after[wanted] == 1 && dst[wanted] == 0;
      assert !SliceOnly(dst, after, 0, wanted);
    }
  }

  /** Five bytes waiting and a slice of five: three bytes behind the slice are overwritten. */
  lemma ShortReadOverwrites(dst: seq<byte>, at: nat, mem: seq<byte>, size: nat)
    requires 8 <= size && |mem| == size + RIM && at + 8 <= |dst|
    ensures Reach(0, 5, size) == 8
    ensures forall i :: 5 <= i < 8 ==> AfterRead(dst, at, mem, 0, 5, size)[at + i] == mem[i]
  {
  }

  method CopyOut(dst: array<byte>, at: nat, mmap: array<byte>, size: nat, read: nat, len: nat, avx512: bool)
    requires dst != mmap && mmap.Length == size + RIM && read < size && len < size
    requires at + Reach(read, len, size) <= dst.Length
    modifies dst
    ensures dst[..] == AfterRead(old(dst[..]), at, mmap[..], read, len, size)
  {
    hide Touched, Moved, AfterRead, Reach;
    ghost var before := dst[..];
    ghost var mid := before;
    ReachCovers(read, len, size);
    OverrunBounds(FirstPart(read, len, size));
    if read + len <= size {
      MemcpySimdOptimized(dst, at, mmap, read, len, avx512);
      mid := dst[..];
    } else {
      var firstPart := size - read;
      OverrunBounds(len - firstPart);
      MemcpySimdOptimized(dst, at, mmap, read, firstPart, avx512);
      mid := dst[..];
      MemcpySimdOptimized(dst, at + firstPart, mmap, 0, len - firstPart, avx512);
    }
    CopiesAreRead(before, mid, dst[..], at, mmap[..], read, len, size);
  }

  lemma ReachCovers(pos: nat, len: nat, size: nat)
    requires pos <= size
    ensures Touched(FirstPart(pos, len, size)) <= Reach(pos, len, size)
    ensures pos + len > size ==> size - pos + Touched(len - (size - pos)) <= Reach(pos, len, size)
  {
  }

  lemma CopiesAreRead(before: seq<byte>, mid: seq<byte>, after: seq<byte>, at: nat, mem: seq<byte>,
                      read: nat, len: nat, size: nat)
    requires read < size && len < size && |mem| == size + RIM
    requires read + Touched(FirstPart(read, len, size)) <= |mem|
    requires Moved(before, mid, at, mem, read, Touched(FirstPart(read, len, size)))
    requires read + len <= size ==> after == mid
    requires read + len > size ==>
      Touched(len - (size - read)) <= |mem| &&
      Moved(mid, after, at + (size - read), mem, 0, Touched(len - (size - read)))
    ensures after == AfterRead(before, at, mem, read, len, size)
  {
    hide Touched;
    OverrunBounds(FirstPart(read, len, size));
    var steps := AfterRead(before, at, mem, read, len, size);
    forall p | 0 <= p < |after| ensures after[p] == steps[p] {
    }
  }

  /** The requested bytes stand in the destination in order. */
  lemma ReadDelivers(dst: seq<byte>, at: nat, mem: seq<byte>, read: nat, len: nat, size: nat, i: nat)
    requires read < size && len < size && |mem| == size + RIM && i < len && at + len <= |dst|
    ensures AfterRead(dst, at, mem, read, len, size)[at + i] ==
      if read + i < size then mem[read + i] else mem[read + i - size]
  {
    hide Touched;
    OverrunBounds(FirstPart(read, len, size));
    if read + len > size { OverrunBounds(len - (size - read)); }
  }

  /** The loads of a read stay inside the buffer exactly when this holds. */
  predicate CleanRead(read: nat, len: nat, size: nat)
    requires read <= size
  {
    if read + len <= size then read + Touched(len) <= size
    else Touched(size - read) == size - read && Touched(len - (size - read)) <= size
  }

  lemma CleanReadIsExact(read: nat, len: nat, size: nat)
    requires read < size && len < size
    ensures CleanRead(read, len, size) <==>
      forall k: nat :: k < PlanLength(read, len, size, false) ==> RingOffset(read, len, k, size, false) < size
  {
    hide Touched;
    OverrunBounds(FirstPart(read, len, size));
    var first := Touched(FirstPart(read, len, size));
    if read + len > size { OverrunBounds(len - (size - read)); }
    if !CleanRead(read, len, size) {
      var k := if read + first > size then size - read else first + size;
      assert k < PlanLength(read, len, size, false) && RingOffset(read, len, k, size, false) >= size;
    }
  }

  // ----- what the copies mean for the waiting bytes -----

  /** Address by address: a clean write leaves alone what is waiting and what lies behind the buffer. */
  lemma CleanWriteSpares(mem: seq<byte>, bytes: seq<byte>, read: nat, write: nat, len: nat, size: nat, a: nat)
    requires read < size && write < size && len + RIM <= |bytes| && a < |mem|
    requires len <= AvailableSpace(read, write, size) && CleanWrite(read, write, len, size, false)
    requires a >= size || (if write >= read then read <= a < write else a >= read || a < write)
    ensures AfterCopies(mem, bytes, write, len, size, false)[a] == mem[a]
  {
    hide Touched;
    OverrunBounds(FirstPart(write, len, size));
    if write + len > size { OverrunBounds(len - (size - write)); }
  }

  /** And it puts the requested bytes in the slots that follow. */
  lemma CleanWriteFills(mem: seq<byte>, bytes: seq<byte>, read: nat, write: nat, len: nat, size: nat, i: nat)
    requires read < size && write < size && len + RIM <= |bytes| && size <= |mem| && i < len
    requires len <= AvailableSpace(read, write, size) && CleanWrite(read, write, len, size, false)
    ensures AfterCopies(mem, bytes, write, len, size, false)[if write + i < size then write + i else write + i - size]
      == bytes[i]
  {
    hide Touched;
    OverrunBounds(FirstPart(write, len, size));
    if write + len > size { OverrunBounds(len - (size - write)); }
  }

  /** After a clean write the waiting bytes are unchanged, the new ones follow them, and nothing behind
      the buffer has changed. */
  lemma WriteLands(mem: seq<byte>, bytes: seq<byte>, low: nat, high: nat, len: nat, size: nat)
    requires low <= high && high + len < low + size && |mem| == size + RIM && len + RIM <= |bytes|
    requires CleanWrite(Mod(low, size), Mod(high, size), len, size, false)
    ensures var after := AfterCopies(mem, bytes, Mod(high, size), len, size, false);
      && |after| == |mem| && after[size..] == mem[size..]
      && Between(after[..size], low, high + len) == Between(mem[..size], low, high) + bytes[..len]
  {
    hide CleanWrite, AfterCopies, Mod, Between, AvailableSpace;
    var read, write := Mod(low, size), Mod(high, size);
    var after := AfterCopies(mem, bytes, write, len, size, false);
    DataIsDistance(low, high, size);
    ModShift(low, high - low, size);
    forall a | size <= a < |mem| ensures after[a] == mem[a] {
      CleanWriteSpares(mem, bytes, read, write, len, size, a);
    }
    forall k | low <= k < high ensures after[..size][Mod(k, size)] == mem[..size][Mod(k, size)] {
      ModShift(low, k - low, size);
      CleanWriteSpares(mem, bytes, read, write, len, size, Mod(k, size));
    }
    forall k | high <= k < high + len ensures after[..size][Mod(k, size)] == bytes[..len][k - high] {
      ModShift(high, k - high, size);
      CleanWriteFills(mem, bytes, read, write, len, size, k - high);
    }
    ContentsGrow(mem[..size], after[..size], low, high, bytes[..len]);
  }

  /** What a write adds to the waiting bytes. */
  lemma ContentsGrow(before: seq<byte>, after: seq<byte>, low: nat, high: nat, data: seq<byte>)
    requires 0 < |before| == |after| && low <= high
    requires forall k :: low <= k < high ==> after[Mod(k, |before|)] == before[Mod(k, |before|)]
    requires forall k :: high <= k < high + |data| ==> after[Mod(k, |before|)] == data[k - high]
    ensures Between(after, low, high + |data|) == Between(before, low, high) + data
  {
    hide Mod, Between;
    var grown, old' := Between(after, low, high + |data|), Between(before, low, high);
    BetweenLength(after, low, high + |data|);
    BetweenLength(before, low, high);
    forall i | 0 <= i < |grown| ensures grown[i] == (old' + data)[i] {
      BetweenAt(after, low, high + |data|, low + i);
      if low + i < high { BetweenAt(before, low, high, low + i); }
    }
  }

  /** What a read takes off the waiting bytes. */
  lemma ContentsShrink(mem: seq<byte>, low: nat, high: nat, out: seq<byte>)
    requires |out| < |mem| && low + |out| <= high
    requires forall i :: 0 <= i < |out| ==>
      out[i] == if Mod(low, |mem|) + i < |mem| then mem[Mod(low, |mem|) + i] else mem[Mod(low, |mem|) + i - |mem|]
    ensures Between(mem, low, high) == out + Between(mem, low + |out|, high)
  {
    hide Mod, Between;
    var all, rest := Between(mem, low, high), Between(mem, low + |out|, high);
    BetweenLength(mem, low, high);
    BetweenLength(mem, low + |out|, high);
    forall i | 0 <= i < |all| ensures all[i] == (out + rest)[i] {
      BetweenAt(mem, low, high, low + i);
      if i < |out| {
        ModShift(low, i, |mem|);
      } else {
        BetweenAt(mem, low + |out|, high, low + i);
      }
    }
  }

  class MemoryMappedBuffer {
    const mmap: array<byte>
    const size: nat
    var readPos: nat
    var writePos: nat
    /** Bytes read and bytes written so far. */
    ghost var consumed: nat
    ghost var produced: nat

    ghost predicate Valid()
      reads this
    {
      && 0 < size && mmap.Length == size + RIM
      && readPos == Mod(consumed, size) && writePos == Mod(produced, size)
      && consumed <= produced < consumed + size
    }

    /** The waiting bytes, oldest first. */
    ghost function Contents(): seq<byte>
      requires Valid()
      reads this, mmap
    {
      Between(mmap[..size], consumed, produced)
    }

    constructor (size: nat)
      requires 0 < size
      ensures Valid() && this.size == size && Contents() == [] && fresh(mmap)
    {
      this.size := size;
      mmap := new byte[size + RIM](_ => 0);
      readPos, writePos, consumed, produced := 0, 0, 0, 0;
      ModParts(0, size);
    }

    /** The number of bytes that can be read. */
    method AvailableDataNow() returns (n: nat)
      requires Valid()
      ensures n == |Contents()|
    {
      DataIsDistance(consumed, produced, size);
      BetweenLength(mmap[..size], consumed, produced);
      n := AvailableData(readPos, writePos, size);
    }

    /** The number of bytes that can be written. */
    method AvailableSpaceNow() returns (n: nat)
      requires Valid()
      ensures n + |Contents()| == size - 1
    {
      hide Mod, Between;
      BetweenLength(mmap[..size], consumed, produced);
      var data := AvailableDataNow();
      n := size - data - 1;
    }

    /** Writes `len` bytes found at `from`, or nothing when they do not fit. A clean write appends them to
        the waiting bytes and leaves what lies behind the buffer alone. Any other one leaves in memory
        what the copying steps of the concurrent writer leave there. */
    method WriteData(src: array<byte>, from: nat, len: nat, avx512: bool) returns (written: Option<nat>)
      requires Valid() && src != mmap && from + len <= src.Length
      requires writePos <= size && len <= AvailableSpace(readPos, writePos, size) ==>
        from + Reach(writePos, len, size) <= src.Length
      modifies this`writePos, this`produced, mmap
      ensures Valid()
      ensures written == if len + |old(Contents())| < size then Some(len) else None
      ensures written.None? ==> mmap[..] == old(mmap[..]) && produced == old(produced)
      ensures written.Some? ==>
        && produced == old(produced) + len && len < size && old(writePos) < size
        && mmap[..] == AfterCopies(old(mmap[..]), Padded(src[..], from), old(writePos), len, size, false)
      ensures written.Some? && CleanWrite(readPos, old(writePos), len, size, false) ==>
        && Contents() == old(Contents()) + src[from..from + len]
        && mmap[size..] == old(mmap[size..])
    {
      hide Mod, CleanWrite, Between, AfterCopies, Reach;
      DataIsDistance(consumed, produced, size);
      BetweenLength(mmap[..size], consumed, produced);
      ModParts(produced, size);
      var currentWrite, currentRead := writePos, readPos;
      if len > AvailableSpace(currentRead, currentWrite, size) {
        return None;
      }
      ghost var before := mmap[..];
      CopyIn(mmap, size, currentWrite, src, from, len, avx512);
      ghost var bytes := Padded(src[..], from);
      if CleanWrite(currentRead, currentWrite, len, size, false) {
        WriteLands(before, bytes, consumed, produced, len, size);
        assert mmap[..][..size] == mmap[..size] && before[..size] == old(mmap[..size]);
        assert mmap[..][size..] == mmap[size..] && before[size..] == old(mmap[size..]);
        assert bytes[..len] == src[from..from + len];
      }
      StoreMoves(produced, len, size);
      writePos := Mod(currentWrite + len, size);
      produced := produced + len;
      return Some(len);
    }

    /** Moves up to `wanted` of the oldest bytes to `at`. */
    method ReadData(dst: array<byte>, at: nat, wanted: nat, avx512: bool) returns (n: nat)
      requires Valid() && dst != mmap && at + wanted <= dst.Length
      requires readPos <= size && at + Reach(readPos, Min(wanted, |Contents()|), size) <= dst.Length
      modifies this`readPos, this`consumed, dst
      ensures Valid()
      ensures n == Min(wanted, |old(Contents())|)
      ensures old(Contents()) == dst[at..at + n] + Contents()
      ensures n < size && old(readPos) < size &&
        dst[..] == AfterRead(old(dst[..]), at, mmap[..], old(readPos), n, size)
      ensures Reach(old(readPos), n, size) <= wanted ==> SliceOnly(old(dst[..]), dst[..], at, wanted)
    {
      hide Mod, Reach, Between, AfterRead;
      DataIsDistance(consumed, produced, size);
      BetweenLength(mmap[..size], consumed, produced);
      ModParts(consumed, size);
      var currentRead, currentWrite := readPos, writePos;
      var available := AvailableData(currentRead, currentWrite, size);
      ghost var before := dst[..];
      if available == 0 {
        NothingRead(before, at, mmap[..], currentRead, size);
        return 0;
      }
      n := Min(wanted, available);
      CopyOut(dst, at, mmap, size, currentRead, n, avx512);
      ghost var got := dst[at..at + n];
      forall i | 0 <= i < n ensures got[i] == if currentRead + i < size then mmap[..size][currentRead + i]
                                              else mmap[..size][currentRead + i - size]
      {
        ReadDelivers(before, at, mmap[..], currentRead, n, size, i);
      }
      ContentsShrink(mmap[..size], consumed, produced, got);
      StoreMoves(consumed, n, size);
      readPos := Mod(currentRead + n, size);
      consumed := consumed + n;
    }
  }

  lemma NothingRead(dst: seq<byte>, at: nat, mem: seq<byte>, read: nat, size: nat)
    requires read < size && |mem| == size + RIM
    ensures AfterRead(dst, at, mem, read, 0, size) == dst
  {
  }
}
