// mc::utils::MemoryPool<BlockSize> (memory_pool.hpp): a bump allocator over
// fixed-size blocks. The bytes of a block are not modelled: a block is its
// size, and a pointer is a block index and an offset into that block.
module MemoryPools {
  import opened Wrappers

  /** size_t wraps modulo 2^64. */
  const SIZE_T: nat := 0x1_0000_0000_0000_0000

  predicate PowerOfTwo(a: nat)
  {
    a == 1 || (a > 1 && a % 2 == 0 && PowerOfTwo(a / 2))
  }

  /** x & ~(a - 1) for a power of two a: x with the bits below a cleared. */
  function Mask(x: nat, a: nat): nat
    requires PowerOfTwo(a)
  {
    if a == 1 then x else 2 * Mask(x / 2, a / 2)
  }

  /** Clearing the low bits leaves a multiple of a, at most a - 1 below x. */
  lemma {:induction false} MaskQuotient(x: nat, a: nat) returns (q: nat)
    requires PowerOfTwo(a)
    ensures Mask(x, a) == q * a && Mask(x, a) <= x < Mask(x, a) + a
  {
    if a == 1 {
      q := x;
    } else {
      var h := a / 2;
      var q' := MaskQuotient(x / 2, h);
      q := q';
      assert 2 * (q' * h) == q' * a;
    }
  }

  lemma MaskRoundsDown(x: nat, a: nat)
    requires PowerOfTwo(a)
    ensures Mask(x, a) % a == 0 && Mask(x, a) <= x < Mask(x, a) + a
  {
    var q := MaskQuotient(x, a);
    MultipleMod(Mask(x, a), q, a);
  }

  lemma MultipleMod(n: nat, q: nat, a: nat)
    requires a > 0 && n == q * a
    ensures n % a == 0
  {
    var d := n / a;
    var r := n % a;
    assert n == d * a + r;
    var k := q - d;
    assert k * a == r by {
      assert q * a - d * a == (q - d) * a;
    }
    MulSign(k, a);
  }

  /** A nonzero multiple of a positive a is at least a away from 0. */
  lemma MulSign(k: int, a: int)
    requires a > 0
    ensures k >= 1 ==> k * a >= a
    ensures k <= -1 ==> k * a <= 0 - a
  {
    if k >= 1 {
      assert k * a == (k - 1) * a + a;
    } else if k <= -1 {
      assert k * a == -((-k - 1) * a) - a;
    }
  }

  /** size_t addition. */
  function SizeAdd(x: nat, y: nat): (r: nat)
    requires x < SIZE_T && y < SIZE_T
    ensures r < SIZE_T && r == (x + y) % SIZE_T
  {
    if x + y < SIZE_T then x + y else x + y - SIZE_T
  }

  /** (size + alignment - 1) & ~(alignment - 1), in size_t: the sum wraps. */
  function Rounded(size: nat, alignment: nat): (r: nat)
    requires size < SIZE_T && alignment <= SIZE_T && PowerOfTwo(alignment)
    ensures r < SIZE_T
  {
    MaskRoundsDown(SizeAdd(size, alignment - 1), alignment);
    Mask(SizeAdd(size, alignment - 1), alignment)
  }

  /** The same rounding without wrap-around. */
  function AlignUp(size: nat, alignment: nat): nat
    requires PowerOfTwo(alignment)
  {
    Mask(size + alignment - 1, alignment)
  }

  /** Rounding gives the next multiple of the alignment at or above the size;
      in size_t it does so whenever the sum does not wrap. */
  lemma RoundsUp(size: nat, alignment: nat)
    requires PowerOfTwo(alignment)
    ensures AlignUp(size, alignment) % alignment == 0
    ensures size <= AlignUp(size, alignment) < size + alignment
    ensures size + alignment - 1 < SIZE_T && alignment <= SIZE_T ==> Rounded(size, alignment) == AlignUp(size, alignment)
  {
    MaskRoundsDown(size + alignment - 1, alignment);
  }

  /** A size that is already a multiple of the alignment is left as it is. */
  lemma AlignedUnchanged(size: nat, alignment: nat)
    requires PowerOfTwo(alignment) && size % alignment == 0
    ensures AlignUp(size, alignment) == size
  {
    var q := MaskQuotient(size + alignment - 1, alignment);
    var s := ExactQuotient(size, alignment);
    SameMultiple(AlignUp(size, alignment), q, size, s, alignment);
  }

  /** A multiple of a is its quotient times a. */
  lemma ExactQuotient(n: nat, a: nat) returns (s: nat)
    requires a > 0 && n % a == 0
    ensures n == s * a
  {
    s := n / a;
  }

  /** Two multiples of a less than a apart, the lower one not above the
      other, are equal. */
  lemma SameMultiple(m: nat, q: nat, n: nat, s: nat, a: nat)
    requires a > 0 && m == q * a && n == s * a && n <= m < n + a
    ensures m == n
  {
    assert m - n == (q - s) * a;
    MulSign(q - s, a);
  }

  /** A size near the top of size_t rounds to 0: the sum wraps. */
  lemma WrappedRounding()
    ensures Rounded(SIZE_T - 1, 16) == 0
  {
    assert SizeAdd(SIZE_T - 1, 15) == 14;
  }

  /** blocks_[current_block_].get() + current_offset_. */
  datatype Pointer = Pointer(block: nat, offset: nat)

  class MemoryPool {
    /** The template parameter BlockSize. */
    const blockSize: nat
    /** blocks_: the size of each block allocated, in order. */
    var blocks: seq<nat>
    var currentBlock: nat
    var currentOffset: nat

    /** Every block has BlockSize bytes and the current one exists; offsets
        are size_t values. */
    predicate Valid()
      reads this
    {
      currentBlock < |blocks| && currentOffset < SIZE_T && blockSize < SIZE_T
      && forall i :: 0 <= i < |blocks| ==> blocks[i] == blockSize
    }

    /** The pool starts with one block, at offset 0. */
    constructor (blockSize: nat)
      requires blockSize < SIZE_T
      ensures Bounded() && this.blockSize == blockSize
      ensures blocks == [blockSize] && currentBlock == 0 && currentOffset == 0
    {
      this.blockSize := blockSize;
      blocks := [];
      currentBlock := 0;
      currentOffset := 0;
      new;
      AllocateNewBlock();
    }

    /** allocateNewBlock: append a block and continue at its start. */
    method AllocateNewBlock()
      requires blockSize < SIZE_T && forall i :: 0 <= i < |blocks| ==> blocks[i] == blockSize
      modifies this
      ensures Valid() && blocks == old(blocks) + [blockSize]
      ensures currentBlock == |old(blocks)| && currentOffset == 0
    {
      blocks := blocks + [blockSize];
      currentBlock := |blocks| - 1;
      currentOffset := 0;
    }

    /** allocate(size, alignment): round the size up; start a new block when
        the rest of the current one is too small; return the current place
        and move past the rounded size. The alignment is a power of two. */
    method Allocate(size: nat, alignment: nat) returns (p: Pointer)
      requires Valid() && size < SIZE_T && alignment < SIZE_T && PowerOfTwo(alignment)
      modifies this
      ensures Valid()
      ensures var r := Rounded(size, alignment);
              if SizeAdd(old(currentOffset), r) > blockSize then
                blocks == old(blocks) + [blockSize] && p == Pointer(|old(blocks)|, 0)
                && currentBlock == |old(blocks)| && currentOffset == r
              else
                blocks == old(blocks) && p == Pointer(old(currentBlock), old(currentOffset))
                && currentBlock == old(currentBlock) && currentOffset == SizeAdd(old(currentOffset), r)
    {
      var r := Rounded(size, alignment);
      if SizeAdd(currentOffset, r) > blockSize {
        AllocateNewBlock();
      }
      p := Pointer(currentBlock, currentOffset);
      currentOffset := SizeAdd(currentOffset, r);
    }

    /** reset: back to the start of the first block; no block is freed. */
    method Reset()
      requires Valid()
      modifies this
      ensures Bounded() && blocks == old(blocks) && currentBlock == 0 && currentOffset == 0
    {
      currentBlock := 0;
      currentOffset := 0;
    }

    /** totalAllocated: blocks_.size() * BlockSize. */
    function TotalAllocated(): (n: nat)
      reads this
      requires Valid()
      ensures n == Sizes(blocks)
    {
      BlocksTotal(blocks, blockSize);
      |blocks| * blockSize
    }

    /** The offset never passes the end of the current block. */
    predicate Bounded()
      reads this
    {
      Valid() && currentOffset <= blockSize
    }

    /** allocate as evidently intended: the size is rounded without
        wrap-around, and a rounded size larger than a block is refused
        (std::bad_alloc) rather than placed past a fresh block's end. */
    method AllocateWithin(size: nat, alignment: nat) returns (p: Option<Pointer>)
      requires Bounded() && PowerOfTwo(alignment)
      modifies this
      ensures Bounded()
      ensures var r := AlignUp(size, alignment);
              if r > blockSize then
                p.None? && blocks == old(blocks) && currentBlock == old(currentBlock)
                && currentOffset == old(currentOffset)
              else if old(currentOffset) + r > blockSize then
                blocks == old(blocks) + [blockSize] && p == Some(Pointer(|old(blocks)|, 0))
                && currentBlock == |old(blocks)| && currentOffset == r
              else
                blocks == old(blocks) && p == Some(Pointer(old(currentBlock), old(currentOffset)))
                && currentBlock == old(currentBlock) && currentOffset == old(currentOffset) + r
      ensures p.Some? ==> p.value.block == currentBlock && Within(p.value.offset, size, blockSize)
    {
      var r := AlignUp(size, alignment);
      RoundsUp(size, alignment);
      if r > blockSize {
        return None;
      }
      if currentOffset + r > blockSize {
        AllocateNewBlock();
      }
      p := Some(Pointer(currentBlock, currentOffset));
      currentOffset := currentOffset + r;
    }
  }

  /** The sum of the block sizes. */
  function Sizes(bs: seq<nat>): nat
  {
    if bs == [] then 0 else bs[0] + Sizes(bs[1..])
  }

  /** With every block of BlockSize bytes, the count times BlockSize is their sum. */
  lemma {:induction false} BlocksTotal(bs: seq<nat>, size: nat)
    requires forall i :: 0 <= i < |bs| ==> bs[i] == size
    ensures Sizes(bs) == |bs| * size
  {
    if bs != [] {
      BlocksTotal(bs[1..], size);
    }
  }

  /** A region of n bytes at offset o lies inside a block of the given size. */
  predicate Within(o: nat, n: nat, size: nat)
  {
    o + n <= size
  }

  /** totalAllocated never decreases: allocate adds at most one block, reset none. */
  method TotalNeverDecreases(pool: MemoryPool, size: nat, alignment: nat, reset: bool)
    returns (before: nat, after: nat)
    requires pool.Valid() && size < SIZE_T && alignment < SIZE_T && PowerOfTwo(alignment)
    modifies pool
    ensures before <= after
    ensures after == before || after == before + pool.blockSize
  {
    before := pool.TotalAllocated();
    if reset {
      pool.Reset();
    } else {
      var _ := pool.Allocate(size, alignment);
    }
    after := pool.TotalAllocated();
  }

  /** allocate as written with a size larger than BlockSize: a fresh block is
      started, and the region returned runs past its end. */
  method OversizeOverruns() returns (p: Pointer, size: nat, blockSize: nat)
    ensures p.offset == 0 && !Within(p.offset, size, blockSize)
  {
    var pool := new MemoryPool(4096);
    assert PowerOfTwo(16);
    assert SizeAdd(8192, 15) == 8207;
    assert Mask(8207, 16) == 8192;
    p := pool.Allocate(8192, 16);
    size, blockSize := 8192, pool.blockSize;
  }
}
