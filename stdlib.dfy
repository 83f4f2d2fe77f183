/** Userland/libc/stdlib.c: the user-space allocation wrappers and the
    classic linear-congruential `rand`.  The kernel allocator behind the
    `sys_mem_alloc` / `sys_mem_free` system calls is outside this module:
    what it hands back is a parameter. */
module UserStdlib {
  import opened Common

  /** `malloc`: a zero-byte request is answered with NULL and never reaches
      the kernel; any other request is the kernel's answer (`kernel`).
      `called` says whether the system call was made. */
  method Malloc(size: nat, kernel: Option<nat>) returns (r: Option<nat>, called: bool)
    ensures called <==> size != 0
    ensures r == if called then kernel else None
  {
    if size == 0 {
      return None, false;
    }
    return kernel, true;
  }

  /** `free`: NULL is ignored; anything else is handed to the kernel. */
  method Free(ptr: Option<nat>) returns (called: bool)
    ensures called <==> ptr.Some?
  {
    if ptr.None? {
      return false;
    }
    return true;
  }

  /** The overflow guard of `calloc` is exact: for a non-zero element size,
      `nmemb <= SIZE_MAX / size` holds precisely when the product fits in
      a `size_t`. */
  lemma CallocGuardExact(nmemb: nat, size: nat)
    requires size > 0
    ensures nmemb <= SIZE_MAX / size <==> nmemb * size <= SIZE_MAX
  {
    var q := SIZE_MAX / size;
    assert q * size <= SIZE_MAX < (q + 1) * size;
    if nmemb <= q {
      assert nmemb * size <= q * size by {
        MulMonotone(nmemb, q, size);
      }
    } else {
      assert (q + 1) * size <= nmemb * size by {
        MulMonotone(q + 1, nmemb, size);
      }
    }
  }

  lemma MulMonotone(a: nat, b: nat, c: nat)
    requires a <= b
    ensures a * c <= b * c
  {
  }

  /** `calloc`: NULL for a zero count or size, for a product that does not
      fit in `size_t`, or when `malloc` fails; otherwise the block the
      kernel returned, with its first `nmemb * size` bytes zeroed.
      `block` is what `malloc(nmemb * size)` returns (the kernel block, or
      null); `calledMalloc` says whether `malloc` was reached at all. */
  method Calloc(nmemb: nat, size: nat, block: array?<Byte>) returns (r: array?<Byte>, calledMalloc: bool)
    requires nmemb <= SIZE_MAX && size <= SIZE_MAX
    requires block != null && nmemb * size <= SIZE_MAX ==> nmemb * size <= block.Length
    modifies block
    ensures calledMalloc <==> nmemb > 0 && size > 0 && nmemb <= SIZE_MAX / size
    ensures calledMalloc ==> nmemb * size <= SIZE_MAX
    ensures r != null <==> calledMalloc && block != null
    ensures r != null ==> r == block && forall i :: 0 <= i < nmemb * size ==> r[i] == 0
    ensures r != null ==> forall i :: nmemb * size <= i < r.Length ==> r[i] == old(r[i])
    ensures r == null ==> block == null || block[..] == old(block[..])
  {
    if nmemb == 0 || size == 0 {
      return null, false;
    }
    if nmemb > SIZE_MAX / size {
      return null, false;
    }
    CallocGuardExact(nmemb, size);
    var total := nmemb * size;
    calledMalloc := true;
    if block == null {
      return null, true;
    }
    var i := 0;
    while i < total
      invariant 0 <= i <= total
      invariant forall j :: 0 <= j < i ==> block[j] == 0
      invariant forall j :: i <= j < block.Length ==> block[j] == old(block[j])
    {
      block[i] := 0;
      i := i + 1;
    }
    r := block;
  }

  /** One step of the generator's state: `next * 1103515245 + 12345` in a
      64-bit `unsigned long` (the width on x86-64). */
  function LcgStep(next: nat): nat { (next * 1103515245 + 12345) % U64_LIMIT }

  /** The value `rand` returns from the new state: bits 16 and up, through
      an `unsigned int`, reduced modulo 32768. */
  function RandOutput(next: nat): (r: nat)
    ensures r <= 32767
  {
    ((next / 65536) % U32_LIMIT) % 32768
  }

  /** The `count` values `rand` returns after `srand(seed)`. */
  function RandStream(seed: nat, count: nat): (s: seq<nat>)
    ensures |s| == count
    decreases count
  {
    if count == 0 then [] else [RandOutput(LcgStep(seed))] + RandStream(LcgStep(seed), count - 1)
  }

  lemma {:induction false} RandStreamInRange(seed: nat, count: nat)
    ensures forall i :: 0 <= i < count ==> RandStream(seed, count)[i] <= 32767
    decreases count
  {
    if count > 0 {
      RandStreamInRange(LcgStep(seed), count - 1);
      assert RandStream(seed, count) == [RandOutput(LcgStep(seed))] + RandStream(LcgStep(seed), count - 1);
    }
  }

  /** The static `next` of `rand` / `srand`, initially 1. */
  class RandState {
    var next: nat

    constructor ()
      ensures next == 1
    {
      next := 1;
    }

    /** `srand`: the seed is an `unsigned int`. */
    method Srand(seed: nat)
      requires seed < U32_LIMIT
      modifies this
      ensures next == seed
    {
      next := seed;
    }

    method Rand() returns (r: nat)
      modifies this
      ensures next == LcgStep(old(next))
      ensures r == RandOutput(next) && r <= 32767
    {
      next := LcgStep(next);
      r := RandOutput(next);
    }
  }

  /** Whatever happened before, `srand(seed)` followed by `count` calls
      of `rand` returns exactly `RandStream(seed, count)`. */
  method SeededSequence(g: RandState, seed: nat, count: nat) returns (out: seq<nat>)
    requires seed < U32_LIMIT
    modifies g
    ensures out == RandStream(seed, count)
  {
    g.Srand(seed);
    out := [];
    var k := 0;
    while k < count
      invariant 0 <= k <= count
      invariant out + RandStream(g.next, count - k) == RandStream(seed, count)
    {
      var x := g.Rand();
      out := out + [x];
      k := k + 1;
    }
    assert RandStream(g.next, 0) == [];
  }

  lemma LcgFirstSteps()
    ensures LcgStep(1) == 1103527590 && RandOutput(1103527590) == 16838
    ensures LcgStep(1103527590) == 1217759518843121895 && RandOutput(1217759518843121895) == 5758
  {
    assert 1103527590 < U64_LIMIT;
    assert 1103527590 / 65536 == 16838;
    assert 1103527590 * 1103515245 + 12345 == 1217759518843121895 < U64_LIMIT;
    assert 1217759518843121895 / 65536 == 18581535626878;
    assert 18581535626878 % U32_LIMIT == 1507104382;
    assert 1507104382 % 32768 == 5758;
  }

  /** Without `srand` the classic C stream starts 16838, 5758. */
  lemma DefaultStream()
    ensures RandStream(1, 2) == [16838, 5758]
  {
    LcgFirstSteps();
    assert RandStream(1103527590, 1) == [5758];
  }
}
