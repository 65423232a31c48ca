/** The shared memory pool as one thread drives it, and the manager of three such pools. */
module BlockPool {
  import opened MachineInts
  import opened Bits
  import opened BlockBitmap

  /** A handed-out block: where it starts in the pool's region, its size, and its identity. */
  datatype Block = Block(offset: nat, size: nat, poolId: nat, blockIndex: nat)

  class SharedMemoryPool {
    const freeBlocks: array<u64>
    const blockSize: nat
    const totalBlocks: nat
    const poolId: nat
    var allocatorHead: nat

    ghost predicate Valid()
      reads freeBlocks
    {
      Shape(freeBlocks[..], totalBlocks)
    }

    /** The blocks this pool can hand out. */
    ghost function FreeSet(): set<nat>
      reads freeBlocks
    {
      FreeBelow(freeBlocks[..], totalBlocks)
    }

    /** The blocks this pool has handed out. */
    ghost function Live(): set<nat>
      reads freeBlocks
    {
      TakenBelow(freeBlocks[..], totalBlocks)
    }

    /** A pool over `totalSize` bytes. The block size is rounded up to whole cache lines; a region
        that cannot be mapped yields no pool. */
    static method New(poolId: nat, totalSize: u64, blockSize: u64, mapped: bool)
      returns (pool: Option<SharedMemoryPool>)
      requires 0 < blockSize && blockSize + 63 <= U64_MAX
      ensures pool.Some? <==> mapped
      ensures pool.Some? ==>
        var p := pool.value;
        && fresh(p) && fresh(p.freeBlocks) && p.Valid() && p.poolId == poolId
        && blockSize <= p.blockSize < blockSize + 64 && p.blockSize % 64 == 0
        && p.totalBlocks == totalSize / p.blockSize
        && Tight(p.freeBlocks[..], p.totalBlocks)
        && p.Live() == {} && p.allocatorHead == 0
    {
      hide AlignUp64, Shape, Tight, TakenBelow;
      AlignUp64IsLeast(blockSize);
      var aligned := AlignUp64(blockSize);
      if !mapped {
        return None;
      }
      var p := new SharedMemoryPool(poolId, aligned, totalSize / aligned);
      pool := Some(p);
    }

    constructor (poolId: nat, blockSize: nat, totalBlocks: nat)
      ensures this.poolId == poolId && this.blockSize == blockSize && this.totalBlocks == totalBlocks
      ensures fresh(freeBlocks) && Valid() && allocatorHead == 0
      ensures Tight(freeBlocks[..], totalBlocks) && Live() == {}
    {
      this.poolId := poolId;
      this.blockSize := blockSize;
      this.totalBlocks := totalBlocks;
      allocatorHead := 0;
      var words := new u64[(totalBlocks + 63) / 64];
      freeBlocks := words;
      new;
      for i := 0 to words.Length
        invariant allocatorHead == 0
        invariant forall j :: 0 <= j < i ==> words[j] == InitialWord(j, totalBlocks)
      {
        words[i] := InitialWord(i, totalBlocks);
      }
      assert freeBlocks[..] == words[..];
      InitialIsAllFree(words[..], totalBlocks);
    }

    /** Takes a free block. The scan begins at the word the hint names and goes once around; in each
        word the lowest set bit is claimed by a weak compare-and-swap, which may fail `spurious`
        times for no reason. A claimed bit beyond the last block is put back. */
    method AllocateBlock(spurious: nat) returns (block: Option<Block>)
      requires Valid()
      modifies this`allocatorHead, freeBlocks
      ensures Valid()
      ensures block.None? <==> old(FreeSet()) == {}
      ensures block.None? ==> freeBlocks[..] == old(freeBlocks[..]) && allocatorHead == old(allocatorHead)
      ensures block.Some? ==>
        var b := block.value.blockIndex;
        && b in old(FreeSet())
        && freeBlocks[..] == Claimed(old(freeBlocks[..]), b)
        && block.value == Block(b * blockSize, blockSize, poolId, b)
        && allocatorHead == (b + 1) * 64
        && (forall c :: c in old(FreeSet()) && c / 64 == b / 64 ==> b <= c)
        && FirstOnScan(old(freeBlocks[..]), old(allocatorHead) / 64, b / 64, totalBlocks)
    {
      hide Bit, ClearBit, SetBit, TrailingZeros, Free;
      var n := freeBlocks.Length;
      ghost var words := freeBlocks[..];
      var failures := spurious;
      var attempt := 0;
      while attempt < n
        invariant 0 <= attempt <= n
        invariant freeBlocks[..] == words && allocatorHead == old(allocatorHead)
        invariant forall a :: 0 <= a < attempt ==> Exhausted(words, ScanIndex(allocatorHead / 64, a, n), totalBlocks)
      {
        var index := ScanIndex(allocatorHead / 64, attempt, n);
        var current := freeBlocks[index];
        var outOfRange := false;
        while current != 0 && !outOfRange
          invariant freeBlocks[..] == words && allocatorHead == old(allocatorHead)
          invariant current == words[index]
          invariant outOfRange ==> Exhausted(words, index, totalBlocks)
          decreases failures, !outOfRange
        {
          var bit := TrailingZeros(current);
          LowestBitOfWord(words, index);
          var failsAnyway: bool := *;
          if failures > 0 && failsAnyway {
            failures := failures - 1;
            current := freeBlocks[index];
          } else {
            var b := index * 64 + bit;
            freeBlocks[index] := ClearBit(current, bit);
            assert freeBlocks[..] == Claimed(words, b);
            if b >= totalBlocks {
              freeBlocks[index] := SetBit(freeBlocks[index], bit);
              ClaimReleaseInverse(words, b);
              assert freeBlocks[..] == Released(Claimed(words, b), b);
              outOfRange := true;
            } else {
              allocatorHead := (b + 1) * 64;
              assert b in FreeBelow(words, totalBlocks);
              return Some(Block(b * blockSize, blockSize, poolId, b));
            }
          }
        }
        if current == 0 { EmptyWord(words, index, totalBlocks); }
        attempt := attempt + 1;
      }
      NothingLeft(words, totalBlocks, allocatorHead / 64);
      return None;
    }

    /** Gives a block back. A block of another pool, or one past the bitmap, is ignored. */
    method DeallocateBlock(block: Block)
      requires Valid()
      modifies freeBlocks
      ensures Valid()
      ensures freeBlocks[..] ==
        if block.poolId == poolId && block.blockIndex / 64 < freeBlocks.Length
        then Released(old(freeBlocks[..]), block.blockIndex) else old(freeBlocks[..])
    {
      if block.poolId != poolId {
        return;
      }
      var index := block.blockIndex / 64;
      if index < freeBlocks.Length {
        freeBlocks[index] := SetBit(freeBlocks[index], block.blockIndex % 64);
      }
    }

    /** The sum of the words' population counts, which is the number of free blocks. */
    method AvailableBlocks() returns (n: nat)
      requires Valid()
      ensures n == PopCount(freeBlocks[..])
      ensures Tight(freeBlocks[..], totalBlocks) ==> n == |FreeSet()| && n + |Live()| == totalBlocks
    {
      n := 0;
      for i := 0 to freeBlocks.Length
        invariant n == PopCount(freeBlocks[..i])
      {
        n := n + CountOnes(freeBlocks[i]);
        assert freeBlocks[..i + 1][..i] == freeBlocks[..i];
      }
      assert freeBlocks[..freeBlocks.Length] == freeBlocks[..];
      PopCountIsFreeCount(freeBlocks[..], totalBlocks);
      FreeAndTaken(freeBlocks[..], totalBlocks);
    }
  }

  // ----- what the scan knows -----

  /** The word looked at on the given attempt. */
  function ScanIndex(start: nat, attempt: nat, n: nat): nat
    requires n > 0
  {
    (start + attempt) % n
  }

  /** No block of word `index` is free. */
  ghost predicate Exhausted(words: seq<u64>, index: nat, total: nat) {
    forall b: nat :: b < total && b / 64 == index ==> !Free(words, b)
  }

  /** Going around from `start`, word `index` is the first one with a free block. */
  ghost predicate FirstOnScan(words: seq<u64>, start: nat, index: nat, total: nat) {
    exists attempt :: 0 <= attempt < |words| && ScanIndex(start, attempt, |words|) == index
      && forall a :: 0 <= a < attempt ==> Exhausted(words, ScanIndex(start, a, |words|), total)
  }

  lemma EmptyWord(words: seq<u64>, index: nat, total: nat)
    requires index < |words| && words[index] == 0
    ensures Exhausted(words, index, total)
  {
    forall b: nat | b < total && b / 64 == index ensures !Free(words, b) { ZeroHasNoBit(b % 64); }
  }

  /** The lowest set bit of a word is its lowest free block. */
  lemma LowestBitOfWord(words: seq<u64>, index: nat)
    requires index < |words| && words[index] != 0
    ensures var b := 64 * index + TrailingZeros(words[index]);
      && TrailingZeros(words[index]) < 64
      && b / 64 == index && b % 64 == TrailingZeros(words[index])
      && Free(words, b)
      && (forall c: nat :: Free(words, c) && c / 64 == index ==> b <= c)
  {
    var w := words[index];
    WordSize();
    LowestSetBit(w, 0);
    BitsEndAt(64, w, TrailingZeros(w));
    forall c: nat | Free(words, c) && c / 64 == index ensures 64 * index + TrailingZeros(w) <= c {
      LowestSetBit(w, c % 64);
    }
  }

  lemma NothingLeft(words: seq<u64>, total: nat, start: nat)
    requires Shape(words, total)
    requires forall a :: 0 <= a < |words| ==> Exhausted(words, ScanIndex(start, a, |words|), total)
    ensures FreeBelow(words, total) == {}
  {
    forall b: nat | b < total ensures !Free(words, b) {
      var n := |words|;
      var j := b / 64;
      var a := (j + n - start % n) % n;
      Around(start, j, n);
      assert Exhausted(words, ScanIndex(start, a, n), total);
    }
  }

  /** Every index is reached by going once around from any start. */
  lemma Around(start: nat, j: nat, n: nat)
    requires j < n
    ensures (start + (j + n - start % n) % n) % n == j
  {
    var s, q := start % n, start / n;
    assert start == q * n + s;
    if j >= s {
      RemainderUnique(1, j - s, j + n - s, n);
      RemainderUnique(q, j, start + (j - s), n);
    } else {
      RemainderUnique(0, j + n - s, j + n - s, n);
      assert (q + 1) * n == q * n + n;
      RemainderUnique(q + 1, j, start + (j + n - s), n);
    }
  }

  /** Two blocks of a pool never overlap, and each lies within the mapped region. */
  lemma BlocksAreDisjoint(b: nat, c: nat, blockSize: nat, total: nat)
    requires b < c < total
    ensures b * blockSize + blockSize <= c * blockSize
    ensures c * blockSize + blockSize <= total * blockSize
  {
    MulMonotone(b + 1, c, blockSize);
    MulMonotone(c + 1, total, blockSize);
  }

  // ----- the manager of three pools -----

  const KIB: nat := 1024
  const MIB: nat := 1024 * 1024

  /** The pool a request of this size goes to. */
  function PoolFor(size: nat): nat {
    if size <= 64 * KIB then 0 else if size <= MIB then 1 else 2
  }

  function BlockSizeOf(pool: nat): nat {
    if pool == 0 then 64 * KIB else if pool == 1 then MIB else 16 * MIB
  }

  /** A request goes to the pool with the smallest blocks that hold it, if there is one. */
  lemma PoolForIsTightest(size: nat, pool: nat)
    requires pool < 3
    ensures PoolFor(size) < 3
    ensures size <= BlockSizeOf(pool) ==> size <= BlockSizeOf(PoolFor(size)) <= BlockSizeOf(pool)
    ensures size > BlockSizeOf(2) ==> PoolFor(size) == 2
  {
  }

  class ZeroCopyMemoryManager {
    const small: SharedMemoryPool
    const medium: SharedMemoryPool
    const large: SharedMemoryPool
    var blocksAllocated: nat
    var blocksFreed: nat

    /** The pool with the given index. */
    function Pool(i: nat): SharedMemoryPool {
      if i == 0 then small else if i == 1 then medium else large
    }

    ghost predicate Valid()
      reads small.freeBlocks, medium.freeBlocks, large.freeBlocks
    {
      && small != medium && medium != large && small != large
      && small.freeBlocks != medium.freeBlocks && medium.freeBlocks != large.freeBlocks
      && small.freeBlocks != large.freeBlocks
      && forall i | 0 <= i < 3 ::
        && Pool(i).Valid() && Pool(i).poolId == i && Pool(i).blockSize == BlockSizeOf(i)
    }

    /** The number of blocks handed out over all pools. */
    ghost function LiveCount(): nat
      reads small.freeBlocks, medium.freeBlocks, large.freeBlocks
    {
      |small.Live()| + |medium.Live()| + |large.Live()|
    }

    /** The statistics account for every live block. */
    ghost predicate Conserved()
      reads this, small.freeBlocks, medium.freeBlocks, large.freeBlocks
    {
      blocksAllocated == blocksFreed + LiveCount()
    }

    static method New(mapped: bool) returns (manager: Option<ZeroCopyMemoryManager>)
      ensures manager.Some? <==> mapped
      ensures manager.Some? ==> fresh(manager.value) && manager.value.Valid() && manager.value.Conserved()
      ensures manager.Some? ==> manager.value.LiveCount() == 0
      ensures manager.Some? ==>
        && manager.value.small.totalBlocks == 16384 && manager.value.small.blockSize == 65536
        && manager.value.medium.totalBlocks == 4096 && manager.value.medium.blockSize == 1_048_576
        && manager.value.large.totalBlocks == 512 && manager.value.large.blockSize == 16_777_216
    {
      var s := SharedMemoryPool.New(0, 1024 * MIB, 64 * KIB, mapped);
      var m := SharedMemoryPool.New(1, 4 * 1024 * MIB, MIB, mapped);
      var l := SharedMemoryPool.New(2, 8 * 1024 * MIB, 16 * MIB, mapped);
      if s.None? || m.None? || l.None? {
        return None;
      }
      var z := new ZeroCopyMemoryManager(s.value, m.value, l.value);
      manager := Some(z);
    }

    constructor (small: SharedMemoryPool, medium: SharedMemoryPool, large: SharedMemoryPool)
      ensures this.small == small && this.medium == medium && this.large == large
      ensures blocksAllocated == 0 && blocksFreed == 0
    {
      this.small, this.medium, this.large := small, medium, large;
      blocksAllocated, blocksFreed := 0, 0;
    }

    /** Hands out a block of the first pool whose blocks are large enough. A request of more than
        16 MiB still gets a 16 MiB block. */
    method Allocate(size: nat, spurious: nat) returns (block: Option<Block>)
      requires Valid()
      modifies this`blocksAllocated, small`allocatorHead, medium`allocatorHead, large`allocatorHead
      modifies small.freeBlocks, medium.freeBlocks, large.freeBlocks
      ensures Valid()
      ensures block.None? <==> old(Pool(PoolFor(size)).FreeSet()) == {}
      ensures block.None? ==> LiveCount() == old(LiveCount()) && blocksAllocated == old(blocksAllocated)
      ensures block.Some? ==>
        && var p, b := Pool(PoolFor(size)), block.value.blockIndex;
        && block.value == Block(b * p.blockSize, p.blockSize, PoolFor(size), b)
        && block.value.blockIndex in old(Pool(PoolFor(size)).FreeSet())
        && block.value.blockIndex in Pool(PoolFor(size)).Live()
        && (block.value.size >= size <==> size <= 16 * MIB)
        && LiveCount() == old(LiveCount()) + 1
        && blocksAllocated == old(blocksAllocated) + 1
      ensures forall i | 0 <= i < 3 && i != PoolFor(size) :: Pool(i).freeBlocks[..] == old(Pool(i).freeBlocks[..])
      ensures old(Conserved()) ==> Conserved()
    {
      hide Free;
      var pool := Pool(PoolFor(size));
      ghost var words := pool.freeBlocks[..];
      block := pool.AllocateBlock(spurious);
      if block.Some? {
        TakenAfterClaim(words, block.value.blockIndex, pool.totalBlocks);
        blocksAllocated := blocksAllocated + 1;
      }
    }

    /** Takes a block back. The statistics stay right exactly when the block was live. */
    method Deallocate(block: Block)
      requires Valid()
      modifies this`blocksFreed, small.freeBlocks, medium.freeBlocks, large.freeBlocks
      ensures Valid()
      ensures blocksFreed == old(blocksFreed) + if block.poolId < 3 then 1 else 0
      ensures block.poolId < 3 && block.blockIndex < Pool(block.poolId).totalBlocks ==>
        && Pool(block.poolId).FreeSet() == old(Pool(block.poolId).FreeSet()) + {block.blockIndex}
        && (old(Conserved()) ==> (Conserved() <==> old(block.blockIndex in Pool(block.poolId).Live())))
      ensures forall i | 0 <= i < 3 && i != block.poolId :: Pool(i).freeBlocks[..] == old(Pool(i).freeBlocks[..])
    {
      hide Free;
      if block.poolId < 3 {
        var pool := Pool(block.poolId);
        ghost var words := pool.freeBlocks[..];
        pool.DeallocateBlock(block);
        if block.blockIndex < pool.totalBlocks {
          TakenAfterRelease(words, block.blockIndex, pool.totalBlocks);
        }
        blocksFreed := blocksFreed + 1;
      }
    }
  }

  lemma TakenAfterClaim(words: seq<u64>, b: nat, total: nat)
    requires Shape(words, total) && b in FreeBelow(words, total)
    ensures b in TakenBelow(Claimed(words, b), total)
    ensures |TakenBelow(Claimed(words, b), total)| == |TakenBelow(words, total)| + 1
  {
    hide Free;
    ClaimedShrinks(words, b, total);
    ClaimedFrees(words, b, b);
    FreeAndTaken(words, total);
    FreeAndTaken(Claimed(words, b), total);
  }

  lemma TakenAfterRelease(words: seq<u64>, b: nat, total: nat)
    requires Shape(words, total) && b < total
    ensures FreeBelow(Released(words, b), total) == FreeBelow(words, total) + {b}
    ensures b in TakenBelow(words, total) ==>
      |TakenBelow(Released(words, b), total)| == |TakenBelow(words, total)| - 1
    ensures b !in TakenBelow(words, total) ==>
      |TakenBelow(Released(words, b), total)| == |TakenBelow(words, total)|
  {
    hide Free;
    ReleasedGrows(words, b, total);
    FreeAndTaken(words, total);
    FreeAndTaken(Released(words, b), total);
    if b !in TakenBelow(words, total) {
      assert FreeBelow(words, total) + {b} == FreeBelow(words, total);
    }
  }
}
