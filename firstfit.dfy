/** Kernel/mmu/myMalloc.c: the first-fit allocator, the alternative to the
    buddy allocator behind the same `memoryManager.h` interface.  The heap
    is a chain of `Block` headers, each followed by its payload, laid end
    to end from the start of the heap; the chain is the sequence `blocks`
    in list order, which is also address order, and a block's address is
    the room taken by the blocks before it. */
module FirstFit {
  import opened Common

  /** `4096 * 16` bytes of static heap. */
  const HEAP_SIZE: nat := 0x1_0000
  /** `sizeof(Block)` on x86-64: a `size_t`, an `int` padded to 8 bytes
      and a pointer. */
  const BLOCK_SIZE: nat := 24

  /** A `Block` header: the payload size and the `free` flag (the `next`
      pointer is the position in the sequence). */
  datatype Block = Block(size: nat, free: bool)

  /** Which bytes of a block a sum counts: the header and payload, the
      payload of a used block, or the payload of a free block. */
  datatype Part = Whole | UsedPayload | FreePayload

  function Weight(b: Block, part: Part): (r: nat)
    ensures part == Whole ==> r == b.size + BLOCK_SIZE
    ensures part == UsedPayload ==> r == if b.free then 0 else b.size
    ensures part == FreePayload ==> r == if b.free then b.size else 0
  {
    match part
    case Whole => b.size + BLOCK_SIZE
    case UsedPayload => if b.free then 0 else b.size
    case FreePayload => if b.free then b.size else 0
  }

  /** The bytes `part` counts over blocks `lo` to `hi - 1` of a chain. */
  function SumRange(bs: seq<Block>, lo: nat, hi: nat, part: Part): nat
    requires lo <= hi <= |bs|
    decreases hi - lo
  {
    if lo == hi then 0 else SumRange(bs, lo, hi - 1, part) + Weight(bs[hi - 1], part)
  }

  /** The bytes `part` counts over a whole chain. */
  function Sum(bs: seq<Block>, part: Part): nat {
    SumRange(bs, 0, |bs|, part)
  }

  lemma {:induction false} SumSplit(bs: seq<Block>, lo: nat, m: nat, hi: nat, part: Part)
    requires lo <= m <= hi <= |bs|
    ensures SumRange(bs, lo, hi, part) == SumRange(bs, lo, m, part) + SumRange(bs, m, hi, part)
    decreases hi
  {
    if hi > m {
      SumSplit(bs, lo, m, hi - 1, part);
    }
  }

  /** Equal runs of blocks count the same. */
  lemma {:induction false} SumShift(a: seq<Block>, alo: nat, ahi: nat, b: seq<Block>, blo: nat, bhi: nat, part: Part)
    requires alo <= ahi <= |a| && blo <= bhi <= |b| && ahi - alo == bhi - blo
    requires forall i: nat :: alo <= i < ahi ==> a[i] == b[i - alo + blo]
    ensures SumRange(a, alo, ahi, part) == SumRange(b, blo, bhi, part)
    decreases ahi - alo
  {
    if ahi > alo {
      assert a[ahi - 1] == b[bhi - 1];
      SumShift(a, alo, ahi - 1, b, blo, bhi - 1, part);
    }
  }

  lemma SumOne(x: Block, part: Part)
    ensures Sum([x], part) == Weight(x, part)
  {
    assert SumRange([x], 0, 0, part) == 0;
  }

  lemma SumPair(x: Block, y: Block, part: Part)
    ensures Sum([x, y], part) == Weight(x, part) + Weight(y, part)
  {
    assert SumRange([x, y], 0, 1, part) == Weight(x, part);
  }

  /** `r` is the chain `bs` with block `k` replaced by the run `mid`. */
  ghost predicate Replacing(bs: seq<Block>, k: nat, mid: seq<Block>, r: seq<Block>) {
    && k < |bs| && |mid| >= 1 && |r| == |bs| + |mid| - 1
    && (forall i: nat :: i < k ==> r[i] == bs[i])
    && (forall i: nat :: k <= i < k + |mid| ==> r[i] == mid[i - k])
    && (forall i: nat :: k + |mid| <= i < |r| ==> r[i] == bs[i - |mid| + 1])
  }

  lemma ReplaceShape(bs: seq<Block>, k: nat, mid: seq<Block>)
    requires k < |bs| && |mid| >= 1
    ensures Replacing(bs, k, mid, bs[..k] + mid + bs[k + 1..])
  {
  }

  /** Blocks before the replaced one keep their addresses. */
  lemma ReplacedBefore(bs: seq<Block>, k: nat, mid: seq<Block>, r: seq<Block>, j: nat, part: Part)
    requires Replacing(bs, k, mid, r) && j <= k
    ensures SumRange(r, 0, j, part) == SumRange(bs, 0, j, part)
  {
    SumShift(r, 0, j, bs, 0, j, part);
  }

  /** Every block after the replaced one moves `|mid| - 1` places, and its
      address moves by the difference in size; so does the total. */
  lemma ReplacedAfter(bs: seq<Block>, k: nat, mid: seq<Block>, r: seq<Block>, j: nat, part: Part)
    requires Replacing(bs, k, mid, r) && k < j <= |bs|
    ensures SumRange(r, 0, j + |mid| - 1, part) + Weight(bs[k], part) == SumRange(bs, 0, j, part) + Sum(mid, part)
  {
    var e := j + |mid| - 1;
    SumSplit(r, 0, k, e, part);
    SumSplit(r, k, k + |mid|, e, part);
    SumSplit(bs, 0, k, j, part);
    SumSplit(bs, k, k + 1, j, part);
    ReplacedBefore(bs, k, mid, r, k, part);
    ReplacedMiddle(bs, k, mid, r, part);
    ReplacedTail(bs, k, mid, r, j, part);
    assert SumRange(bs, k, k + 1, part) == Weight(bs[k], part) by {
      assert SumRange(bs, k, k, part) == 0;
    }
  }

  lemma ReplacedMiddle(bs: seq<Block>, k: nat, mid: seq<Block>, r: seq<Block>, part: Part)
    requires Replacing(bs, k, mid, r)
    ensures SumRange(r, k, k + |mid|, part) == Sum(mid, part)
  {
    SumShift(r, k, k + |mid|, mid, 0, |mid|, part);
  }

  lemma ReplacedTail(bs: seq<Block>, k: nat, mid: seq<Block>, r: seq<Block>, j: nat, part: Part)
    requires Replacing(bs, k, mid, r) && k < j <= |bs|
    ensures SumRange(r, k + |mid|, j + |mid| - 1, part) == SumRange(bs, k + 1, j, part)
  {
    SumShift(r, k + |mid|, j + |mid| - 1, bs, k + 1, j, part);
  }

  /** The address of block `k`'s header, from the start of the heap. */
  function Addr(bs: seq<Block>, k: nat): (r: nat)
    requires k <= |bs|
  {
    SumRange(bs, 0, k, Whole)
  }

  /** Each block starts right where the one before it ends. */
  lemma AddrStep(bs: seq<Block>, k: nat)
    requires k < |bs|
    ensures Addr(bs, k + 1) == Addr(bs, k) + BLOCK_SIZE + bs[k].size
  {
  }

  /** Blocks are laid out in list order without overlap: block `j` ends
      at or before block `k` starts. */
  lemma {:induction false} AddrOrdered(bs: seq<Block>, j: nat, k: nat)
    requires j < k <= |bs|
    ensures Addr(bs, j) + BLOCK_SIZE + bs[j].size <= Addr(bs, k)
    decreases k
  {
    AddrStep(bs, k - 1);
    if j < k - 1 {
      AddrOrdered(bs, j, k - 1);
    }
  }

  /** Every block lies inside the chain's span. */
  lemma AddrWithin(bs: seq<Block>, k: nat)
    requires k < |bs|
    ensures Addr(bs, k) + BLOCK_SIZE + bs[k].size <= Sum(bs, Whole)
  {
    SumSplit(bs, 0, k + 1, |bs|, Whole);
  }

  /** `(Block *)((uint8_t *)ptr - BLOCK_SIZE)`: the block whose payload
      starts at `p`, if any. */
  function BlockAt(bs: seq<Block>, p: nat): (r: Option<nat>)
    ensures r.Some? ==> r.value < |bs| && Addr(bs, r.value) + BLOCK_SIZE == p
    ensures r.None? ==> forall k: nat :: k < |bs| ==> Addr(bs, k) + BLOCK_SIZE != p
  {
    BlockFrom(bs, p, 0)
  }

  function BlockFrom(bs: seq<Block>, p: nat, k: nat): (r: Option<nat>)
    requires k <= |bs|
    ensures r.Some? ==> k <= r.value < |bs| && Addr(bs, r.value) + BLOCK_SIZE == p
    ensures r.None? ==> forall j: nat :: k <= j < |bs| ==> Addr(bs, j) + BLOCK_SIZE != p
    decreases |bs| - k
  {
    if k == |bs| then None
    else if Addr(bs, k) + BLOCK_SIZE == p then Some(k)
    else BlockFrom(bs, p, k + 1)
  }

  /** The payload address of a block leads back to that block. */
  lemma BlockAtAddr(bs: seq<Block>, k: nat)
    requires k < |bs|
    ensures BlockAt(bs, Addr(bs, k) + BLOCK_SIZE) == Some(k)
  {
    var r := BlockAt(bs, Addr(bs, k) + BLOCK_SIZE);
    if r.value < k {
      AddrOrdered(bs, r.value, k);
    } else if r.value > k {
      AddrOrdered(bs, k, r.value);
    }
  }

  /** `curr->free && curr->size >= size`. */
  predicate Fits(b: Block, size: nat) {
    b.free && b.size >= size
  }

  /** The first block in list order that is free and large enough. */
  function FirstFree(bs: seq<Block>, size: nat): (r: Option<nat>)
    ensures r.Some? ==> r.value < |bs| && Fits(bs[r.value], size)
    ensures r.Some? ==> forall j: nat :: j < r.value ==> !Fits(bs[j], size)
    ensures r.None? ==> forall j: nat :: j < |bs| ==> !Fits(bs[j], size)
  {
    FirstFreeFrom(bs, size, 0)
  }

  function FirstFreeFrom(bs: seq<Block>, size: nat, k: nat): (r: Option<nat>)
    requires k <= |bs|
    ensures r.Some? ==> k <= r.value < |bs| && Fits(bs[r.value], size)
    ensures r.Some? ==> forall j: nat :: k <= j < r.value ==> !Fits(bs[j], size)
    ensures r.None? ==> forall j: nat :: k <= j < |bs| ==> !Fits(bs[j], size)
    decreases |bs| - k
  {
    if k == |bs| then None
    else if Fits(bs[k], size) then Some(k)
    else FirstFreeFrom(bs, size, k + 1)
  }

  /** `curr->size > size + BLOCK_SIZE`: enough is left over for a header
      and a non-empty free block. */
  predicate Splits(b: Block, size: nat) {
    b.size > size + BLOCK_SIZE
  }

  /** The blocks that take the place of block `b` when `mem_alloc`
      takes it for `size` bytes: the block cut to `size` bytes and a free
      remainder when it splits, the block kept whole otherwise; either way
      it is used. */
  function CarvedPiece(b: Block, size: nat): (r: seq<Block>)
    requires b.size >= size
    ensures |r| == if Splits(b, size) then 2 else 1
  {
    if Splits(b, size) then [Block(size, false), Block(b.size - size - BLOCK_SIZE, true)]
    else [b.(free := false)]
  }

  /** The chain after `mem_alloc` takes block `k` for `size` bytes. */
  function Carve(bs: seq<Block>, k: nat, size: nat): (r: seq<Block>)
    requires k < |bs| && bs[k].size >= size
    ensures |r| == |bs| + |CarvedPiece(bs[k], size)| - 1
  {
    bs[..k] + CarvedPiece(bs[k], size) + bs[k + 1..]
  }

  /** What `mem_alloc(size)` takes from block `k`: the payload it hands
      out (`size` when it splits, the whole block otherwise). */
  function Taken(b: Block, size: nat): (r: nat)
    ensures Splits(b, size) ==> r == size
    ensures !Splits(b, size) ==> r == b.size
  {
    if Splits(b, size) then size else b.size
  }

  lemma PieceSums(b: Block, size: nat)
    requires b.size >= size
    ensures Sum(CarvedPiece(b, size), Whole) == Weight(b, Whole)
    ensures b.free ==> Sum(CarvedPiece(b, size), UsedPayload) == Taken(b, size)
    ensures b.free ==> Sum(CarvedPiece(b, size), FreePayload) + Taken(b, size) + (if Splits(b, size) then BLOCK_SIZE else 0)
                         == b.size
  {
    var m := CarvedPiece(b, size);
    if Splits(b, size) {
      SumPair(m[0], m[1], Whole);
      SumPair(m[0], m[1], UsedPayload);
      SumPair(m[0], m[1], FreePayload);
    } else {
      SumOne(m[0], Whole);
      SumOne(m[0], UsedPayload);
      SumOne(m[0], FreePayload);
    }
  }

  /** Carving keeps the chain's span: the heap stays exactly covered. */
  lemma CarveSpan(bs: seq<Block>, k: nat, size: nat)
    requires k < |bs| && bs[k].size >= size
    ensures Sum(Carve(bs, k, size), Whole) == Sum(bs, Whole)
  {
    ReplaceShape(bs, k, CarvedPiece(bs[k], size));
    ReplacedAfter(bs, k, CarvedPiece(bs[k], size), Carve(bs, k, size), |bs|, Whole);
    PieceSums(bs[k], size);
  }

  /** Carving moves bytes from free to used payload: the block's taken
      payload becomes used; the free payload loses the whole block, less
      the free remainder when it splits. */
  lemma CarveSums(bs: seq<Block>, k: nat, size: nat)
    requires k < |bs| && Fits(bs[k], size)
    ensures Sum(Carve(bs, k, size), UsedPayload) == Sum(bs, UsedPayload) + Taken(bs[k], size)
    ensures Sum(Carve(bs, k, size), FreePayload) + Taken(bs[k], size) + (if Splits(bs[k], size) then BLOCK_SIZE else 0)
            == Sum(bs, FreePayload)
  {
    ReplaceShape(bs, k, CarvedPiece(bs[k], size));
    ReplacedAfter(bs, k, CarvedPiece(bs[k], size), Carve(bs, k, size), |bs|, UsedPayload);
    ReplacedAfter(bs, k, CarvedPiece(bs[k], size), Carve(bs, k, size), |bs|, FreePayload);
    PieceSums(bs[k], size);
  }

  /** Carving leaves every block before `k` where it was, and block `k` at
      its old address, used and holding at least `size` bytes. */
  lemma CarveHead(bs: seq<Block>, k: nat, size: nat)
    requires k < |bs| && bs[k].size >= size
    ensures forall j: nat :: j <= k ==> Addr(Carve(bs, k, size), j) == Addr(bs, j)
    ensures forall j: nat :: j < k ==> Carve(bs, k, size)[j] == bs[j]
    ensures Carve(bs, k, size)[k] == Block(Taken(bs[k], size), false) && Taken(bs[k], size) >= size
  {
    ReplaceShape(bs, k, CarvedPiece(bs[k], size));
    forall j: nat | j <= k
      ensures Addr(Carve(bs, k, size), j) == Addr(bs, j)
    {
      ReplacedBefore(bs, k, CarvedPiece(bs[k], size), Carve(bs, k, size), j, Whole);
    }
  }

  /** The free remainder of a split starts right after the taken
      payload. */
  lemma CarveRemainder(bs: seq<Block>, k: nat, size: nat)
    requires k < |bs| && bs[k].size >= size && Splits(bs[k], size)
    ensures Carve(bs, k, size)[k + 1] == Block(bs[k].size - size - BLOCK_SIZE, true)
    ensures Addr(Carve(bs, k, size), k + 1) == Addr(bs, k) + BLOCK_SIZE + size
  {
    CarveHead(bs, k, size);
    AddrStep(Carve(bs, k, size), k);
  }

  /** Carving moves no block after `k`: every later block keeps its
      address and contents, one place further down the list when the
      block splits. */
  lemma CarveTail(bs: seq<Block>, k: nat, size: nat)
    requires k < |bs| && bs[k].size >= size
    ensures forall j: nat :: k < j < |bs| ==>
              && Carve(bs, k, size)[j + |CarvedPiece(bs[k], size)| - 1] == bs[j]
              && Addr(Carve(bs, k, size), j + |CarvedPiece(bs[k], size)| - 1) == Addr(bs, j)
  {
    ReplaceShape(bs, k, CarvedPiece(bs[k], size));
    PieceSums(bs[k], size);
    forall j: nat | k < j < |bs|
      ensures && Carve(bs, k, size)[j + |CarvedPiece(bs[k], size)| - 1] == bs[j]
              && Addr(Carve(bs, k, size), j + |CarvedPiece(bs[k], size)| - 1) == Addr(bs, j)
    {
      ReplacedAfter(bs, k, CarvedPiece(bs[k], size), Carve(bs, k, size), j, Whole);
    }
  }

  /** Freeing block `k` keeps the span and every address, and moves its
      payload from used to free when it was used. */
  lemma FreedSums(bs: seq<Block>, k: nat)
    requires k < |bs|
    ensures Sum(bs[k := bs[k].(free := true)], Whole) == Sum(bs, Whole)
    ensures forall j: nat :: j <= |bs| ==> Addr(bs[k := bs[k].(free := true)], j) == Addr(bs, j)
    ensures !bs[k].free ==>
              Sum(bs[k := bs[k].(free := true)], FreePayload) == Sum(bs, FreePayload) + bs[k].size
              && Sum(bs[k := bs[k].(free := true)], UsedPayload) + bs[k].size == Sum(bs, UsedPayload)
  {
    var t := bs[k := bs[k].(free := true)];
    var mid := [t[k]];
    assert Replacing(bs, k, mid, t);
    ReplacedAfter(bs, k, mid, t, |bs|, Whole);
    ReplacedAfter(bs, k, mid, t, |bs|, FreePayload);
    ReplacedAfter(bs, k, mid, t, |bs|, UsedPayload);
    SumOne(t[k], Whole);
    SumOne(t[k], FreePayload);
    SumOne(t[k], UsedPayload);
    forall j: nat | j <= |bs|
      ensures Addr(t, j) == Addr(bs, j)
    {
      if j <= k {
        ReplacedBefore(bs, k, mid, t, j, Whole);
      } else {
        ReplacedAfter(bs, k, mid, t, j, Whole);
      }
    }
  }

  /** Payload and headers account for the whole span. */
  lemma {:induction false} SumParts(bs: seq<Block>, hi: nat)
    requires hi <= |bs|
    ensures SumRange(bs, 0, hi, UsedPayload) + SumRange(bs, 0, hi, FreePayload) + BLOCK_SIZE * hi
            == SumRange(bs, 0, hi, Whole)
    decreases hi
  {
    if hi > 0 {
      SumParts(bs, hi - 1);
    }
  }

  /** No coalescing: allocating a splitting block and freeing it again
      leaves the heap one header's worth of free payload poorer. */
  lemma SplitThenFree(bs: seq<Block>, k: nat, size: nat)
    requires k < |bs| && Fits(bs[k], size) && Splits(bs[k], size)
    ensures var c := Carve(bs, k, size);
            Sum(c[k := c[k].(free := true)], FreePayload) + BLOCK_SIZE == Sum(bs, FreePayload)
            && |c[k := c[k].(free := true)]| == |bs| + 1
  {
    var c := Carve(bs, k, size);
    CarveSums(bs, k, size);
    CarveHead(bs, k, size);
    FreedSums(c, k);
  }

  class FirstFitHeap {
    /** The block chain from `free_list`; empty while `free_list` is NULL. */
    var blocks: seq<Block>

    /** Once `mem_init` has run, the blocks cover the heap exactly. */
    ghost predicate Valid()
      reads this
    {
      blocks == [] || Sum(blocks, Whole) == HEAP_SIZE
    }

    /** `free_list` starts NULL. */
    constructor ()
      ensures Valid() && blocks == []
    {
      blocks := [];
    }

    /** `mem_init`: one free block spanning the heap after its header. */
    method MemInit()
      modifies this
      ensures Valid() && blocks == [Block(HEAP_SIZE - BLOCK_SIZE, true)]
    {
      blocks := [Block(HEAP_SIZE - BLOCK_SIZE, true)];
      SumOne(blocks[0], Whole);
    }

    /** `mem_alloc`: walks the chain to the first free block of at least
        `size` bytes, cuts it when the rest can hold a header and a free
        block, marks it used and hands back its payload address; NULL when
        no block fits (always, before `mem_init`). */
    method MemAlloc(size: nat) returns (r: Option<nat>)
      requires Valid()
      modifies this
      ensures Valid()
      ensures r.None? <==> FirstFree(old(blocks), size).None?
      ensures r.None? ==> blocks == old(blocks)
      ensures r.Some? ==>
                var k := FirstFree(old(blocks), size).value;
                && blocks == Carve(old(blocks), k, size)
                && r.value == Addr(old(blocks), k) + BLOCK_SIZE
                && BlockAt(blocks, r.value) == Some(k)
                && !blocks[k].free && blocks[k].size >= size
    {
      var k := 0;
      while k < |blocks|
        invariant k <= |blocks| && blocks == old(blocks)
        invariant forall j: nat :: j < k ==> !Fits(blocks[j], size)
      {
        if blocks[k].free && blocks[k].size >= size {
          var curr := blocks[k];
          var addr := Addr(blocks, k);
          if curr.size > size + BLOCK_SIZE {
            var newBlock := Block(curr.size - size - BLOCK_SIZE, true);
            blocks := blocks[..k] + [Block(size, false), newBlock] + blocks[k + 1..];
          } else {
            blocks := blocks[..k] + [curr.(free := false)] + blocks[k + 1..];
          }
          CarveSpan(old(blocks), k, size);
          CarveHead(old(blocks), k, size);
          BlockAtAddr(blocks, k);
          return Some(addr + BLOCK_SIZE);
        }
        k := k + 1;
      }
      return None;
    }

    /** The block `mem_free(ptr)` marks free: the one whose payload starts
        at `ptr`. */
    ghost function Owner(ptr: nat): (r: Option<nat>)
      reads this
      ensures r.Some? ==> r.value < |blocks|
    {
      BlockAt(blocks, ptr)
    }

    /** `mem_free`: sets the `free` flag of the block in front of `ptr`,
        without merging it with its neighbours; NULL is ignored.  The
        pointer must be one `mem_alloc` handed out. */
    method MemFree(ptr: Option<nat>)
      requires Valid() && (ptr.Some? ==> Owner(ptr.value).Some?)
      modifies this
      ensures Valid()
      ensures ptr.None? ==> blocks == old(blocks)
      ensures ptr.Some? ==> var k := old(Owner(ptr.value)).value;
                blocks == old(blocks)[k := old(blocks)[k].(free := true)]
    {
      if ptr.None? {
        return;
      }
      var k := BlockAt(blocks, ptr.value).value;
      FreedSums(blocks, k);
      blocks := blocks[k := blocks[k].(free := true)];
    }

    /** `mem_status`: the heap size, and the payload bytes of the used and
        of the free blocks, summed along the chain. */
    method MemStatus() returns (total: nat, used: nat, available: nat)
      requires Valid()
      ensures total == HEAP_SIZE
      ensures used == Sum(blocks, UsedPayload) && available == Sum(blocks, FreePayload)
      ensures blocks != [] ==> used + available + BLOCK_SIZE * |blocks| == total
    {
      total := HEAP_SIZE;
      used := 0;
      available := 0;
      var k := 0;
      while k < |blocks|
        invariant k <= |blocks|
        invariant used == SumRange(blocks, 0, k, UsedPayload) && available == SumRange(blocks, 0, k, FreePayload)
      {
        if blocks[k].free {
          available := available + blocks[k].size;
        } else {
          used := used + blocks[k].size;
        }
        k := k + 1;
      }
      SumParts(blocks, |blocks|);
    }
  }
}
