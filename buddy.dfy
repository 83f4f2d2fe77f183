/** Kernel/mmu/buddy.c: a buddy allocator over a 512 KiB heap.

    `nodes[]` is a complete binary tree stored by index: node `i` has
    children `2i+1` and `2i+2` and parent `(i-1)/2`, and `build_tree`
    gives every node an order and a base that depend on its index alone
    (`OrderOf`, `BaseOf`).  The model keeps those as functions of the
    index and the node states in an array; heap addresses are offsets
    from the start of `heap[]`. */
module Buddy {
  import opened Common

  const HEAP_ORDER_MIN: nat := 5
  const HEAP_ORDER_MAX: nat := 19
  const HEAP_SIZE: nat := 0x8_0000
  const TREE_LEVELS: nat := HEAP_ORDER_MAX - HEAP_ORDER_MIN + 1
  const NODE_COUNT: nat := 0x7FFF
  /** `sizeof(AllocationHeader)`: one pointer. */
  const HEADER_SIZE: nat := 8

  datatype NodeState = Free | Split | Used

  function Pow2(n: nat): (r: nat)
    ensures r >= 1
  {
    if n == 0 then 1 else 2 * Pow2(n - 1)
  }

  lemma {:induction false} Pow2Monotone(a: nat, b: nat)
    requires a <= b
    ensures Pow2(a) <= Pow2(b)
  {
    if a < b {
      Pow2Monotone(a, b - 1);
    }
  }

  /** Shifting by `a + b` is shifting by `a` and then by `b`: a block of
      order `a + b` holds `2^b` blocks of order `a`. */
  lemma {:induction false} Pow2Add(a: nat, b: nat)
    ensures Pow2(a + b) == Pow2(a) * Pow2(b)
  {
    if b > 0 {
      Pow2Add(a, b - 1);
      assert Pow2(a + b) == 2 * Pow2(a + b - 1);
    }
  }

  /** `block_size`: `1 << order`. */
  function BlockSize(order: nat): (r: nat)
    ensures r == Pow2(order)
  {
    Pow2(order)
  }

  /** How many edges separate node `i` from the root. */
  function Depth(i: nat): nat
  {
    if i == 0 then 0 else 1 + Depth((i - 1) / 2)
  }

  /** The order `build_tree` gives node `i`: 19 at the root, one less per level. */
  function OrderOf(i: nat): int
  {
    HEAP_ORDER_MAX - Depth(i)
  }

  /** A node's children are out of range exactly at the lowest level. */
  predicate IsLeaf(i: nat)
  {
    2 * i + 1 >= NODE_COUNT
  }

  /** Node `j` is `i` or below it. */
  predicate InSubtree(j: nat, i: nat)
    decreases j
  {
    if j < i then false else if j == i then true else InSubtree((j - 1) / 2, i)
  }

  lemma {:induction false} DepthBounds(i: nat)
    ensures Pow2(Depth(i)) - 1 <= i < Pow2(Depth(i) + 1) - 1
  {
    if i > 0 {
      DepthBounds((i - 1) / 2);
    }
  }

  lemma Pow2Exceeds(d: nat)
    ensures d >= 15 ==> Pow2(d) >= 0x8000
    ensures d <= 13 ==> Pow2(d + 1) <= 0x4000
  {
    assert Pow2(15) == 0x8000;
    if d >= 15 {
      Pow2Monotone(15, d);
    } else if d <= 13 {
      Pow2Monotone(d + 1, 14);
    }
  }

  /** Every node in range has an order in [5, 19], and the leaves are
      exactly the nodes of order 5. */
  lemma NodeOrder(i: nat)
    requires i < NODE_COUNT
    ensures HEAP_ORDER_MIN <= OrderOf(i) <= HEAP_ORDER_MAX
    ensures IsLeaf(i) <==> OrderOf(i) == HEAP_ORDER_MIN
    ensures !IsLeaf(i) ==> 2 * i + 2 < NODE_COUNT
  {
    DepthBounds(i);
    Pow2Exceeds(Depth(i));
    assert Pow2(14) == 0x4000;
  }

  /** The children of a node are one level down: their order is one less. */
  lemma ChildOrder(i: nat)
    ensures OrderOf(2 * i + 1) == OrderOf(i) - 1 && OrderOf(2 * i + 2) == OrderOf(i) - 1
  {
    assert (2 * i + 1 - 1) / 2 == i && (2 * i + 2 - 1) / 2 == i;
  }

  /** The base `build_tree` passes to node `i`: the left child shares its
      parent's base, the right child starts half the parent's block later. */
  function BaseOf(i: nat): nat
    requires i < NODE_COUNT
    decreases i
  {
    if i == 0 then 0
    else
      NodeOrder(i);
      if i % 2 == 1 then BaseOf((i - 1) / 2) else BaseOf((i - 1) / 2) + Size(i)
  }

  /** The size of node `i`'s block, `block_size(node->order)`. */
  function Size(i: nat): (r: nat)
    requires i < NODE_COUNT
  {
    NodeOrder(i);
    BlockSize(OrderOf(i) as nat)
  }

  /** The block of node `i` is `[BaseOf(i), BlockEnd(i))`. */
  function BlockEnd(i: nat): (r: nat)
    requires i < NODE_COUNT
  {
    BaseOf(i) + Size(i)
  }

  /** A node's children halve its block, the left one first. */
  lemma Halves(i: nat)
    requires i < NODE_COUNT && !IsLeaf(i)
    ensures 2 * i + 2 < NODE_COUNT
    ensures BaseOf(2 * i + 1) == BaseOf(i) && BlockEnd(2 * i + 1) == BaseOf(2 * i + 2)
    ensures BlockEnd(2 * i + 2) == BlockEnd(i)
    ensures Size(2 * i + 1) == Size(2 * i + 2) && Size(2 * i + 1) + Size(2 * i + 2) == Size(i)
  {
    NodeOrder(i);
    NodeOrder(2 * i + 1);
    NodeOrder(2 * i + 2);
    ChildOrder(i);
    assert (2 * i + 1 - 1) / 2 == i && (2 * i + 2 - 1) / 2 == i;
    assert (2 * i + 1) % 2 == 1 && (2 * i + 2) % 2 == 0;
  }

  /** `j` is in the subtree of `i` exactly when `j` is `i` or in the
      subtree of one of its children, and never in both of those. */
  lemma {:induction false} SubtreeSplit(j: nat, i: nat)
    requires InSubtree(j, i) && j != i
    ensures InSubtree(j, 2 * i + 1) || InSubtree(j, 2 * i + 2)
    decreases j
  {
    var p := (j - 1) / 2;
    if p != i {
      SubtreeSplit(p, i);
      assert InSubtree(p, 2 * i + 1) ==> InSubtree(j, 2 * i + 1);
    }
  }

  lemma {:induction false} SubtreeAtLeast(j: nat, i: nat)
    requires InSubtree(j, i)
    ensures j >= i
  {
  }

  /** The subtree of a child lies in the subtree of its parent. */
  lemma {:induction false} SubtreeTrans(j: nat, c: nat, i: nat)
    requires InSubtree(j, c) && InSubtree(c, i)
    ensures InSubtree(j, i)
    decreases j
  {
    if j != c {
      SubtreeTrans((j - 1) / 2, c, i);
    }
  }

  /** Two nodes whose subtrees meet are one above the other. */
  lemma {:induction false} SubtreeOrdered(j: nat, a: nat, b: nat)
    requires InSubtree(j, a) && InSubtree(j, b) && a <= b
    ensures InSubtree(b, a)
    decreases j
  {
    if j != b {
      SubtreeOrdered((j - 1) / 2, a, b);
    }
  }

  /** The two children of a node have no node in common below them. */
  lemma SiblingsApart(j: nat, i: nat)
    ensures !(InSubtree(j, 2 * i + 1) && InSubtree(j, 2 * i + 2))
  {
    if InSubtree(j, 2 * i + 1) && InSubtree(j, 2 * i + 2) {
      SubtreeOrdered(j, 2 * i + 1, 2 * i + 2);
    }
  }

  /** Below a node, every other node is at or after its left child: in
      particular a leaf in range is alone in its subtree. */
  lemma {:induction false} SubtreeBelow(j: nat, i: nat)
    requires InSubtree(j, i)
    ensures j == i || j >= 2 * i + 1
    ensures j < NODE_COUNT && IsLeaf(i) ==> j == i
    decreases j
  {
    if j != i {
      SubtreeBelow((j - 1) / 2, i);
    }
  }

  /** Every node is in the root's subtree. */
  lemma {:induction false} RootAbove(j: nat)
    ensures InSubtree(j, 0)
    decreases j
  {
    if j != 0 {
      RootAbove((j - 1) / 2);
    }
  }

  /** A node whose parent is in a subtree is in it too. */
  lemma ParentInSubtree(j: nat, i: nat)
    requires j > 0
    ensures InSubtree((j - 1) / 2, i) ==> InSubtree(j, i)
  {
    if InSubtree((j - 1) / 2, i) {
      SubtreeAtLeast((j - 1) / 2, i);
    }
  }

  /** A node's block lies inside the block of every node above it. */
  lemma {:induction false} BlockWithin(j: nat, i: nat)
    requires j < NODE_COUNT && InSubtree(j, i)
    ensures i < NODE_COUNT && BaseOf(i) <= BaseOf(j) && BlockEnd(j) <= BlockEnd(i)
    decreases j
  {
    SubtreeAtLeast(j, i);
    if j != i {
      var p := (j - 1) / 2;
      BlockWithin(p, i);
      NodeOrder(j);
      NodeOrder(p);
      assert !IsLeaf(p);
      Halves(p);
      assert j == 2 * p + 1 || j == 2 * p + 2;
    }
  }

  /** A node below one child of `p` has a block disjoint from the other
      child's. */
  lemma BelowSibling(i: nat, p: nat, j: nat)
    requires p < NODE_COUNT && !IsLeaf(p) && i < NODE_COUNT
    requires (j == 2 * p + 1 && InSubtree(i, 2 * p + 2)) || (j == 2 * p + 2 && InSubtree(i, 2 * p + 1))
    ensures j < NODE_COUNT && (BlockEnd(i) <= BaseOf(j) || BlockEnd(j) <= BaseOf(i))
  {
    Halves(p);
    if j == 2 * p + 1 {
      BlockWithin(i, 2 * p + 2);
    } else {
      BlockWithin(i, 2 * p + 1);
    }
  }

  /** Nodes neither of which is above the other have disjoint blocks. */
  lemma {:induction false} BlocksApart(i: nat, j: nat)
    requires i < NODE_COUNT && j < NODE_COUNT && !InSubtree(i, j) && !InSubtree(j, i)
    ensures BlockEnd(i) <= BaseOf(j) || BlockEnd(j) <= BaseOf(i)
    decreases j
  {
    RootAbove(i);
    var p := (j - 1) / 2;
    ParentInSubtree(j, i);
    NodeOrder(j);
    NodeOrder(p);
    if InSubtree(i, p) {
      SubtreeSplit(i, p);
      BelowSibling(i, p, j);
    } else {
      BlocksApart(i, p);
      BlockWithin(j, p);
    }
  }

  /** A node is above or at another in the tree exactly when it is no deeper. */
  lemma {:induction false} DepthBelow(j: nat, i: nat)
    requires InSubtree(j, i)
    ensures Depth(j) >= Depth(i) && (j != i ==> Depth(j) > Depth(i))
    decreases j
  {
    if j != i {
      DepthBelow((j - 1) / 2, i);
    }
  }

  /** The root takes the whole heap; the leaves are the smallest blocks. */
  lemma RootLayout()
    ensures OrderOf(0) == HEAP_ORDER_MAX && BaseOf(0) == 0
    ensures Size(0) == HEAP_SIZE && BlockEnd(0) == HEAP_SIZE
    ensures forall i: nat :: i < NODE_COUNT && IsLeaf(i) ==> Size(i) == BlockSize(HEAP_ORDER_MIN)
  {
    assert Pow2(15) == 0x8000;
    assert Pow2(19) == 2 * Pow2(18) == 4 * Pow2(17) == 8 * Pow2(16) == 16 * Pow2(15);
    forall i: nat | i < NODE_COUNT && IsLeaf(i)
      ensures Size(i) == BlockSize(HEAP_ORDER_MIN)
    {
      NodeOrder(i);
    }
  }

  /** `node->parent`: NULL at the root. */
  function ParentOf(i: nat): (r: Option<nat>)
    ensures r.None? <==> i == 0
    ensures r.Some? ==> r.value < i && InSubtree(i, r.value) && (i == 2 * r.value + 1 || i == 2 * r.value + 2)
  {
    if i == 0 then None else Some((i - 1) / 2)
  }

  // ---------------------------------------------------------------------
  // The state of the tree

  /** The rule the allocator keeps at every node: a node is SPLIT exactly
      when it has children and they are not both FREE.  So a FREE or USED
      node has FREE children, and a SPLIT node has a child in use. */
  ghost predicate NodeOk(s: seq<NodeState>, i: nat)
    requires |s| == NODE_COUNT && i < NODE_COUNT
  {
    if IsLeaf(i) then s[i] != Split
    else
      NodeOrder(i);
      (s[i] == Split <==> !(s[2 * i + 1] == Free && s[2 * i + 2] == Free))
  }

  ghost predicate Wellformed(s: seq<NodeState>)
  {
    |s| == NODE_COUNT && forall j: nat :: j < NODE_COUNT ==> NodeOk(s, j)
  }

  ghost predicate SubtreeOk(s: seq<NodeState>, i: nat)
    requires |s| == NODE_COUNT
  {
    forall j: nat {:trigger NodeOk(s, j)} :: j < NODE_COUNT && InSubtree(j, i) ==> NodeOk(s, j)
  }

  /** `s` and `t` agree on the subtree of `i`. */
  ghost predicate Same(s: seq<NodeState>, t: seq<NodeState>, i: nat)
    requires |s| == NODE_COUNT && |t| == NODE_COUNT
  {
    forall j: nat :: j < NODE_COUNT && InSubtree(j, i) ==> s[j] == t[j]
  }

  /** `s` and `t` agree outside the subtree of `i`. */
  ghost predicate Outside(s: seq<NodeState>, t: seq<NodeState>, i: nat)
    requires |s| == NODE_COUNT && |t| == NODE_COUNT
  {
    forall j: nat :: j < NODE_COUNT && !InSubtree(j, i) ==> s[j] == t[j]
  }

  /** The tree `build_tree` leaves behind: every node FREE. */
  ghost function InitialTree(): (s: seq<NodeState>)
    ensures |s| == NODE_COUNT && Wellformed(s)
    ensures forall j: nat :: j < NODE_COUNT ==> s[j] == Free
  {
    seq(NODE_COUNT, _ => Free)
  }

  /** `free_bytes`: the whole block of a FREE node, the free bytes of both
      children of a SPLIT node, nothing for a USED node or NULL. */
  function FreeBytes(s: seq<NodeState>, i: nat): (r: nat)
    requires |s| == NODE_COUNT
    ensures i < NODE_COUNT ==> r <= Size(i)
    decreases if i < NODE_COUNT then NODE_COUNT - i else 0
  {
    if i >= NODE_COUNT then 0
    else if s[i] == Free then Size(i)
    else if s[i] == Split then
      HalvesIfInner(i);
      FreeBytes(s, 2 * i + 1) + FreeBytes(s, 2 * i + 2)
    else 0
  }

  lemma HalvesIfInner(i: nat)
    requires i < NODE_COUNT
    ensures !IsLeaf(i) ==> 2 * i + 2 < NODE_COUNT && Size(2 * i + 1) + Size(2 * i + 2) == Size(i)
    ensures IsLeaf(i) ==> 2 * i + 1 >= NODE_COUNT
  {
    if !IsLeaf(i) {
      Halves(i);
    }
  }

  lemma SameOk(s: seq<NodeState>, t: seq<NodeState>, c: nat)
    requires |s| == NODE_COUNT && |t| == NODE_COUNT && Same(s, t, c) && SubtreeOk(s, c)
    ensures SubtreeOk(t, c)
  {
    forall j: nat | j < NODE_COUNT && InSubtree(j, c)
      ensures NodeOk(t, j)
    {
      assert NodeOk(s, j);
      assert s[j] == t[j];
      if !IsLeaf(j) {
        NodeOrder(j);
        assert (2 * j + 1 - 1) / 2 == j && (2 * j + 2 - 1) / 2 == j;
        ParentInSubtree(2 * j + 1, c);
        ParentInSubtree(2 * j + 2, c);
        assert s[2 * j + 1] == t[2 * j + 1] && s[2 * j + 2] == t[2 * j + 2];
      }
    }
  }

  /** `free_bytes` of a node depends on its subtree alone. */
  lemma {:induction false} FreeBytesSame(s: seq<NodeState>, t: seq<NodeState>, c: nat)
    requires |s| == NODE_COUNT && |t| == NODE_COUNT && Same(s, t, c)
    ensures FreeBytes(s, c) == FreeBytes(t, c)
    decreases if c < NODE_COUNT then NODE_COUNT - c else 0
  {
    if c < NODE_COUNT && !IsLeaf(c) && s[c] == Split {
      NodeOrder(c);
      forall j: nat | j < NODE_COUNT && InSubtree(j, 2 * c + 1)
        ensures s[j] == t[j]
      {
        SubtreeTrans(j, 2 * c + 1, c);
      }
      forall j: nat | j < NODE_COUNT && InSubtree(j, 2 * c + 2)
        ensures s[j] == t[j]
      {
        SubtreeTrans(j, 2 * c + 2, c);
      }
      FreeBytesSame(s, t, 2 * c + 1);
      FreeBytesSame(s, t, 2 * c + 2);
    }
  }

  /** The subtrees of an inner node's children are well formed when its own is. */
  lemma ChildrenOk(s: seq<NodeState>, i: nat)
    requires |s| == NODE_COUNT && i < NODE_COUNT && !IsLeaf(i) && SubtreeOk(s, i)
    ensures 2 * i + 2 < NODE_COUNT && NodeOk(s, i)
    ensures SubtreeOk(s, 2 * i + 1) && SubtreeOk(s, 2 * i + 2)
  {
    NodeOrder(i);
    forall j: nat | j < NODE_COUNT && InSubtree(j, 2 * i + 1)
      ensures NodeOk(s, j)
    {
      SubtreeTrans(j, 2 * i + 1, i);
    }
    forall j: nat | j < NODE_COUNT && InSubtree(j, 2 * i + 2)
      ensures NodeOk(s, j)
    {
      SubtreeTrans(j, 2 * i + 2, i);
    }
  }

  lemma JoinOk(s: seq<NodeState>, i: nat)
    requires |s| == NODE_COUNT && i < NODE_COUNT && !IsLeaf(i) && NodeOk(s, i)
    requires SubtreeOk(s, 2 * i + 1) && SubtreeOk(s, 2 * i + 2)
    ensures SubtreeOk(s, i)
  {
    forall j: nat | j < NODE_COUNT && InSubtree(j, i)
      ensures NodeOk(s, j)
    {
      if j != i {
        SubtreeSplit(j, i);
      }
    }
  }

  /** Every node below a FREE or USED node is FREE: a USED block holds no
      other block in use. */
  lemma {:induction false} BelowUnsplitFree(s: seq<NodeState>, a: nat, j: nat)
    requires Wellformed(s) && a < NODE_COUNT && s[a] != Split
    requires j < NODE_COUNT && InSubtree(j, a) && j != a
    ensures s[j] == Free
    decreases j
  {
    var p := (j - 1) / 2;
    assert NodeOk(s, p);
    if p != a {
      BelowUnsplitFree(s, a, p);
    }
  }

  /** Every node above a node in use is SPLIT. */
  lemma {:induction false} AboveUsedSplit(s: seq<NodeState>, n: nat, b: nat)
    requires Wellformed(s) && n < NODE_COUNT && s[n] != Free
    requires InSubtree(n, b) && n != b
    ensures s[b] == Split
    decreases n
  {
    var p := (n - 1) / 2;
    assert NodeOk(s, p);
    if p != b {
      AboveUsedSplit(s, p, b);
    }
  }

  /** Live allocations occupy disjoint blocks. */
  lemma UsedApart(s: seq<NodeState>, i: nat, j: nat)
    requires Wellformed(s) && i < NODE_COUNT && j < NODE_COUNT && i != j
    requires s[i] == Used && s[j] == Used
    ensures BlockEnd(i) <= BaseOf(j) || BlockEnd(j) <= BaseOf(i)
  {
    if InSubtree(i, j) {
      BelowUnsplitFree(s, j, i);
    } else if InSubtree(j, i) {
      BelowUnsplitFree(s, i, j);
    } else {
      BlocksApart(i, j);
    }
  }

  /** A change confined below one child leaves the other child's subtree alone. */
  lemma SiblingSame(s: seq<NodeState>, t: seq<NodeState>, i: nat, a: nat, c: nat, d: nat)
    requires |s| == NODE_COUNT && |t| == NODE_COUNT && Outside(s, t, i) && InSubtree(i, c)
    requires (c == 2 * a + 1 && d == 2 * a + 2) || (c == 2 * a + 2 && d == 2 * a + 1)
    ensures Same(s, t, d)
  {
    forall j: nat | j < NODE_COUNT && InSubtree(j, d)
      ensures s[j] == t[j]
    {
      if InSubtree(j, i) {
        SubtreeTrans(j, i, c);
        SiblingsApart(j, a);
      }
    }
  }

  /** Changing a node below a path of SPLIT nodes changes the free bytes
      of every node on the path by the same amount. */
  lemma {:induction false} FreeBytesUp(s: seq<NodeState>, t: seq<NodeState>, i: nat, a: nat, delta: int)
    requires |s| == NODE_COUNT && |t| == NODE_COUNT && i < NODE_COUNT && InSubtree(i, a)
    requires Outside(s, t, i)
    requires FreeBytes(t, i) == FreeBytes(s, i) + delta
    requires forall b: nat :: b < NODE_COUNT && InSubtree(i, b) && InSubtree(b, a) && b != i ==> s[b] == Split
    ensures FreeBytes(t, a) == FreeBytes(s, a) + delta
    decreases i - a
  {
    SubtreeAtLeast(i, a);
    if i != a {
      SubtreeBelow(i, a);
      NodeOrder(a);
      SubtreeSplit(i, a);
      var c := if InSubtree(i, 2 * a + 1) then 2 * a + 1 else 2 * a + 2;
      var d := if c == 2 * a + 1 then 2 * a + 2 else 2 * a + 1;
      SiblingSame(s, t, i, a, c, d);
      FreeBytesSame(s, t, d);
      forall b: nat | b < NODE_COUNT && InSubtree(i, b) && InSubtree(b, c) && b != i
        ensures s[b] == Split
      {
        SubtreeTrans(b, c, a);
      }
      FreeBytesUp(s, t, i, c, delta);
      assert s[a] == Split && t[a] == Split;
    }
  }

  // ---------------------------------------------------------------------
  // acquire_node

  /** No node from `i` down to `j`, both included, is USED. */
  ghost predicate NoUsedOnPath(s: seq<NodeState>, i: nat, j: nat)
    requires |s| == NODE_COUNT
  {
    forall b: nat :: b < NODE_COUNT && InSubtree(j, b) && InSubtree(b, i) ==> s[b] != Used
  }

  /** Under `i` there is a FREE node of the given order that is not below
      a USED node: the blocks `acquire_node(i, order)` may hand out. */
  ghost predicate CanAcquire(s: seq<NodeState>, i: nat, order: int)
    requires |s| == NODE_COUNT
  {
    exists j: nat :: j < NODE_COUNT && InSubtree(j, i) && OrderOf(j) == order && s[j] == Free && NoUsedOnPath(s, i, j)
  }

  /** Node `j` is one of the blocks `CanAcquire` speaks of. */
  ghost predicate Candidate(s: seq<NodeState>, i: nat, order: int, j: nat)
    requires |s| == NODE_COUNT
  {
    j < NODE_COUNT && InSubtree(j, i) && OrderOf(j) == order && s[j] == Free && NoUsedOnPath(s, i, j)
  }

  /** No block `acquire_node(i, order)` may hand out starts below node
      `r`'s: the left-first search takes the lowest-based one. */
  ghost predicate Lowest(s: seq<NodeState>, i: nat, order: int, r: nat)
    requires |s| == NODE_COUNT
  {
    r < NODE_COUNT && forall j: nat :: Candidate(s, i, order, j) ==> BaseOf(r) <= BaseOf(j)
  }

  /** What a successful `acquire_node(i, order)` leaves behind in `s`,
      from `s0`: node `r` of that order below `i` was FREE and is USED,
      the nodes from `i` down to it were not USED and are SPLIT, no other
      node changed, and the tree below `i` is still well formed and has
      lost exactly `r`'s block. */
  ghost predicate Acquired(s0: seq<NodeState>, s: seq<NodeState>, i: nat, order: int, r: nat)
  {
    && |s0| == NODE_COUNT && |s| == NODE_COUNT && i < NODE_COUNT && r < NODE_COUNT
    && InSubtree(r, i) && OrderOf(r) == order && s0[r] == Free && s[r] == Used
    && (forall b: nat :: b < NODE_COUNT && InSubtree(r, b) && InSubtree(b, i) && b != r ==> s0[b] != Used && s[b] == Split)
    && (forall j: nat :: j < NODE_COUNT && !InSubtree(r, j) ==> s[j] == s0[j])
    && SubtreeOk(s, i)
    && FreeBytes(s, i) + Size(r) == FreeBytes(s0, i)
  }

  lemma AcquireHere(s0: seq<NodeState>, i: nat)
    requires |s0| == NODE_COUNT && i < NODE_COUNT && s0[i] == Free && SubtreeOk(s0, i)
    ensures Acquired(s0, s0[i := Used], i, OrderOf(i), i) && Outside(s0, s0[i := Used], i)
  {
    var s := s0[i := Used];
    forall b: nat | b < NODE_COUNT && InSubtree(i, b) && InSubtree(b, i)
      ensures b == i
    {
      SubtreeAtLeast(i, b);
      SubtreeAtLeast(b, i);
    }
    forall j: nat | j < NODE_COUNT && InSubtree(j, i)
      ensures NodeOk(s, j)
    {
      assert NodeOk(s0, j);
      SubtreeAtLeast(j, i);
    }
  }

  /** The halves of a node a search is about to enter are well formed,
      whether or not the node was just marked SPLIT. */
  lemma EnterOk(s0: seq<NodeState>, i: nat)
    requires |s0| == NODE_COUNT && i < NODE_COUNT && !IsLeaf(i) && SubtreeOk(s0, i)
    ensures 2 * i + 2 < NODE_COUNT
    ensures SubtreeOk(s0[i := Split], 2 * i + 1) && SubtreeOk(s0[i := Split], 2 * i + 2)
    ensures Same(s0, s0[i := Split], 2 * i + 1) && Same(s0, s0[i := Split], 2 * i + 2)
  {
    ChildrenOk(s0, i);
    var mid := s0[i := Split];
    forall j: nat | j < NODE_COUNT && (InSubtree(j, 2 * i + 1) || InSubtree(j, 2 * i + 2))
      ensures s0[j] == mid[j]
    {
      if InSubtree(j, 2 * i + 1) {
        SubtreeAtLeast(j, 2 * i + 1);
      } else {
        SubtreeAtLeast(j, 2 * i + 2);
      }
    }
    SameOk(s0, mid, 2 * i + 1);
    SameOk(s0, mid, 2 * i + 2);
  }

  /** The half a search did not take is untouched. */
  lemma OtherHalfSame(mid: seq<NodeState>, s: seq<NodeState>, i: nat, c: nat, d: nat)
    requires |mid| == NODE_COUNT && |s| == NODE_COUNT && Outside(mid, s, c)
    requires (c == 2 * i + 1 && d == 2 * i + 2) || (c == 2 * i + 2 && d == 2 * i + 1)
    ensures Same(mid, s, d)
  {
    forall j: nat | j < NODE_COUNT && InSubtree(j, d)
      ensures mid[j] == s[j]
    {
      SiblingsApart(j, i);
    }
  }

  /** The nodes from `i` down to a block found under its child `c`. */
  lemma BelowPath(s0: seq<NodeState>, s: seq<NodeState>, i: nat, c: nat, d: nat, r: nat)
    requires |s0| == NODE_COUNT && |s| == NODE_COUNT && i < NODE_COUNT && s0[i] != Used && s[i] == Split
    requires (c == 2 * i + 1 && d == 2 * i + 2) || (c == 2 * i + 2 && d == 2 * i + 1)
    requires InSubtree(r, c)
    requires forall b: nat :: b < NODE_COUNT && InSubtree(r, b) && InSubtree(b, c) && b != r ==> s0[i := Split][b] != Used && s[b] == Split
    ensures forall b: nat :: b < NODE_COUNT && InSubtree(r, b) && InSubtree(b, i) && b != r ==> s0[b] != Used && s[b] == Split
  {
    forall b: nat | b < NODE_COUNT && InSubtree(r, b) && InSubtree(b, i) && b != r
      ensures s0[b] != Used && s[b] == Split
    {
      if b != i {
        SubtreeSplit(b, i);
        if InSubtree(b, d) {
          SubtreeTrans(r, b, d);
          SiblingsApart(r, i);
        }
        SubtreeAtLeast(b, c);
      }
    }
  }

  lemma BelowBytes(s0: seq<NodeState>, s: seq<NodeState>, i: nat, c: nat, d: nat, order: int, r: nat)
    requires |s0| == NODE_COUNT && i < NODE_COUNT && !IsLeaf(i) && SubtreeOk(s0, i)
    requires (c == 2 * i + 1 && d == 2 * i + 2) || (c == 2 * i + 2 && d == 2 * i + 1)
    requires Acquired(s0[i := Split], s, c, order, r) && Same(s0[i := Split], s, d)
    requires s0[i] != Used && s[i] == Split
    ensures FreeBytes(s, i) + Size(r) == FreeBytes(s0, i)
  {
    var mid := s0[i := Split];
    EnterOk(s0, i);
    ChildrenOk(s0, i);
    Halves(i);
    FreeBytesSame(mid, s, d);
    FreeBytesSame(s0, mid, d);
    FreeBytesSame(s0, mid, c);
    var left, right := 2 * i + 1, 2 * i + 2;
    assert FreeBytes(s, i) == FreeBytes(s, left) + FreeBytes(s, right);
    assert FreeBytes(s, c) + Size(r) == FreeBytes(mid, c);
    assert FreeBytes(s, d) == FreeBytes(s0, d) && FreeBytes(mid, c) == FreeBytes(s0, c);
    FreeBytesInner(s0, i);
  }

  /** A free or split inner node has the free bytes of its two halves. */
  lemma FreeBytesInner(s: seq<NodeState>, i: nat)
    requires |s| == NODE_COUNT && i < NODE_COUNT && !IsLeaf(i) && NodeOk(s, i) && s[i] != Used
    ensures 2 * i + 2 < NODE_COUNT
    ensures FreeBytes(s, i) == FreeBytes(s, 2 * i + 1) + FreeBytes(s, 2 * i + 2)
  {
    Halves(i);
    if s[i] == Free {
      assert s[2 * i + 1] == Free && s[2 * i + 2] == Free;
    }
  }

  lemma BelowOk(s0: seq<NodeState>, s: seq<NodeState>, i: nat, c: nat, d: nat, order: int, r: nat)
    requires |s0| == NODE_COUNT && i < NODE_COUNT && !IsLeaf(i) && SubtreeOk(s0, i)
    requires (c == 2 * i + 1 && d == 2 * i + 2) || (c == 2 * i + 2 && d == 2 * i + 1)
    requires Acquired(s0[i := Split], s, c, order, r) && Same(s0[i := Split], s, d)
    requires s[i] == Split
    ensures SubtreeOk(s, i)
  {
    EnterOk(s0, i);
    SameOk(s0[i := Split], s, d);
    assert s[c] != Free by {
      assert InSubtree(c, c);
    }
    JoinOk(s, i);
  }

  /** A block found under child `c` of `i` is a block found under `i`. */
  lemma AcquireBelow(s0: seq<NodeState>, mid: seq<NodeState>, s: seq<NodeState>, i: nat, c: nat, order: int, r: nat)
    requires |s0| == NODE_COUNT && i < NODE_COUNT && !IsLeaf(i) && SubtreeOk(s0, i)
    requires s0[i] != Used && mid == s0[i := Split]
    requires c == 2 * i + 1 || c == 2 * i + 2
    requires Acquired(mid, s, c, order, r) && Outside(mid, s, c)
    ensures Acquired(s0, s, i, order, r) && Outside(s0, s, i)
  {
    var d := if c == 2 * i + 1 then 2 * i + 2 else 2 * i + 1;
    NodeOrder(i);
    SubtreeTrans(r, c, i);
    SubtreeAtLeast(r, c);
    assert s[i] == Split by {
      assert !InSubtree(i, c);
    }
    OtherHalfSame(mid, s, i, c, d);
    BelowPath(s0, s, i, c, d, r);
    BelowBytes(s0, s, i, c, d, order, r);
    BelowOk(s0, s, i, c, d, order, r);
    forall j: nat | j < NODE_COUNT && !InSubtree(j, i)
      ensures s0[j] == s[j]
    {
      if InSubtree(j, c) {
        SubtreeTrans(j, c, i);
      }
    }
    forall j: nat | j < NODE_COUNT && !InSubtree(r, j)
      ensures s[j] == s0[j]
    {
      if InSubtree(j, c) {
        SubtreeAtLeast(j, c);
      }
    }
  }

  /** A block `acquire_node` hands out is one it was allowed to. */
  lemma AcquiredCan(s0: seq<NodeState>, s: seq<NodeState>, i: nat, order: int, r: nat)
    requires Acquired(s0, s, i, order, r)
    ensures CanAcquire(s0, i, order)
  {
    assert NoUsedOnPath(s0, i, r);
  }

  /** Nothing can be acquired under a USED node. */
  lemma CannotUnderUsed(s: seq<NodeState>, i: nat, order: int)
    requires |s| == NODE_COUNT && i < NODE_COUNT && s[i] == Used
    ensures !CanAcquire(s, i, order)
  {
    forall j: nat | j < NODE_COUNT && InSubtree(j, i) && OrderOf(j) == order && s[j] == Free
      ensures !NoUsedOnPath(s, i, j)
    {
      assert InSubtree(i, i);
    }
  }

  /** Under node `i` there is no block of an order above `i`'s, and the
      only block of `i`'s order is `i` itself. */
  lemma OrdersBelow(s: seq<NodeState>, i: nat, order: int)
    requires |s| == NODE_COUNT && i < NODE_COUNT
    ensures OrderOf(i) < order ==> !CanAcquire(s, i, order)
    ensures OrderOf(i) == order && s[i] != Free ==> !CanAcquire(s, i, order)
    ensures IsLeaf(i) && OrderOf(i) != order ==> !CanAcquire(s, i, order)
  {
    forall j: nat | j < NODE_COUNT && InSubtree(j, i)
      ensures OrderOf(j) <= OrderOf(i) && (j != i ==> OrderOf(j) < OrderOf(i))
      ensures IsLeaf(i) ==> j == i
    {
      DepthBelow(j, i);
      SubtreeBelow(j, i);
    }
  }

  /** What can be acquired under a node depends on its subtree alone. */
  lemma CanSame(s: seq<NodeState>, t: seq<NodeState>, c: nat, order: int)
    requires |s| == NODE_COUNT && |t| == NODE_COUNT && Same(s, t, c)
    ensures CanAcquire(s, c, order) == CanAcquire(t, c, order)
  {
    forall j: nat | j < NODE_COUNT && InSubtree(j, c)
      ensures NoUsedOnPath(s, c, j) == NoUsedOnPath(t, c, j)
    {
      forall b: nat | b < NODE_COUNT && InSubtree(j, b) && InSubtree(b, c)
        ensures s[b] == t[b]
      {
      }
    }
  }

  /** Below an inner node that is not USED and whose order is above the
      one sought, a block can be acquired only under one of the halves. */
  lemma CanSplit(s: seq<NodeState>, i: nat, order: int)
    requires |s| == NODE_COUNT && i < NODE_COUNT && !IsLeaf(i) && s[i] != Used && OrderOf(i) > order
    requires !CanAcquire(s, 2 * i + 1, order) && !CanAcquire(s, 2 * i + 2, order)
    ensures !CanAcquire(s, i, order)
  {
    forall j: nat | j < NODE_COUNT && InSubtree(j, i) && OrderOf(j) == order && s[j] == Free
      ensures !NoUsedOnPath(s, i, j)
    {
      SubtreeSplit(j, i);
      var c := if InSubtree(j, 2 * i + 1) then 2 * i + 1 else 2 * i + 2;
      assert !NoUsedOnPath(s, c, j);
      var b: nat :| b < NODE_COUNT && InSubtree(j, b) && InSubtree(b, c) && s[b] == Used;
      SubtreeTrans(b, c, i);
    }
  }

  /** A failed search under an inner node puts the node back as it was:
      SPLIT is undone exactly when both halves are FREE. */
  lemma FailedSearchRestores(s0: seq<NodeState>, i: nat)
    requires |s0| == NODE_COUNT && i < NODE_COUNT && !IsLeaf(i) && SubtreeOk(s0, i) && s0[i] != Used
    ensures 2 * i + 2 < NODE_COUNT
    ensures var mid := s0[i := Split];
            (if mid[2 * i + 1] == Free && mid[2 * i + 2] == Free then mid[i := Free] else mid) == s0
  {
    ChildrenOk(s0, i);
  }

  /** A block that may be taken under `i` and lies in the half `c` of `i`
      may be taken under `c` once `i` is marked SPLIT. */
  lemma CandidateInHalf(s0: seq<NodeState>, mid: seq<NodeState>, i: nat, c: nat, order: int, j: nat)
    requires |s0| == NODE_COUNT && i < NODE_COUNT && mid == s0[i := Split]
    requires c == 2 * i + 1 || c == 2 * i + 2
    requires Candidate(s0, i, order, j) && InSubtree(j, c)
    ensures Candidate(mid, c, order, j)
  {
    assert (c - 1) / 2 == i && InSubtree(c, i);
    SubtreeAtLeast(j, c);
    forall b: nat | b < NODE_COUNT && InSubtree(j, b) && InSubtree(b, c)
      ensures mid[b] != Used
    {
      SubtreeTrans(b, c, i);
      SubtreeAtLeast(b, c);
    }
  }

  /** At a node of the order sought, the node itself is the only block
      that may be taken. */
  lemma LowestHere(s0: seq<NodeState>, i: nat)
    requires |s0| == NODE_COUNT && i < NODE_COUNT
    ensures Lowest(s0, i, OrderOf(i), i)
  {
    forall j: nat | Candidate(s0, i, OrderOf(i), j)
      ensures BaseOf(i) <= BaseOf(j)
    {
      DepthBelow(j, i);
    }
  }

  /** The block found in a half is the lowest-based under the parent: a
      block found in the left half starts below every block of the right
      half, and the right half is searched only when the left half holds
      no block that may be taken. */
  lemma LowestBelow(s0: seq<NodeState>, mid: seq<NodeState>, i: nat, c: nat, order: int, r: nat)
    requires |s0| == NODE_COUNT && i < NODE_COUNT && !IsLeaf(i) && mid == s0[i := Split] && OrderOf(i) > order
    requires c == 2 * i + 1 || c == 2 * i + 2
    requires InSubtree(r, c) && Lowest(mid, c, order, r)
    requires c == 2 * i + 2 ==> !CanAcquire(mid, 2 * i + 1, order)
    ensures Lowest(s0, i, order, r)
  {
    Halves(i);
    forall j: nat | Candidate(s0, i, order, j)
      ensures BaseOf(r) <= BaseOf(j)
    {
      assert j != i;
      SubtreeSplit(j, i);
      if InSubtree(j, c) {
        CandidateInHalf(s0, mid, i, c, order, j);
      } else if c == 2 * i + 1 {
        BlockWithin(r, 2 * i + 1);
        BlockWithin(j, 2 * i + 2);
      } else {
        CandidateInHalf(s0, mid, i, 2 * i + 1, order, j);
        assert false;
      }
    }
  }

  /** Two blocks of the same order that may be taken and are both lowest
      are the same node: `Lowest` names the one node the search takes. */
  lemma LowestUnique(s: seq<NodeState>, i: nat, order: int, r1: nat, r2: nat)
    requires |s| == NODE_COUNT
    requires Candidate(s, i, order, r1) && Lowest(s, i, order, r1)
    requires Candidate(s, i, order, r2) && Lowest(s, i, order, r2)
    ensures r1 == r2
  {
    if r1 != r2 {
      if InSubtree(r1, r2) {
        DepthBelow(r1, r2);
      } else if InSubtree(r2, r1) {
        DepthBelow(r2, r1);
      } else {
        NodeOrder(r1);
        BlocksApart(r1, r2);
      }
    }
  }

  /** The outcome of `acquire_node(i, order)` from `s0` to `s`: only the
      subtree of `i` changes; a node is handed out exactly when one can be
      acquired, as `Acquired` says, and it is the lowest-based such node;
      otherwise nothing changes. */
  ghost predicate Searched(s0: seq<NodeState>, s: seq<NodeState>, i: nat, order: int, r: Option<nat>)
  {
    && |s0| == NODE_COUNT && |s| == NODE_COUNT && i < NODE_COUNT
    && Outside(s0, s, i)
    && (r.None? ==> s == s0)
    && (r.Some? <==> CanAcquire(s0, i, order))
    && (r.Some? ==> Acquired(s0, s, i, order, r.value) && Lowest(s0, i, order, r.value))
  }

  lemma SearchedNothing(s0: seq<NodeState>, i: nat, order: int)
    requires |s0| == NODE_COUNT && i < NODE_COUNT && !CanAcquire(s0, i, order)
    ensures Searched(s0, s0, i, order, None)
  {
  }

  lemma SearchedHere(s0: seq<NodeState>, s: seq<NodeState>, i: nat)
    requires |s0| == NODE_COUNT && i < NODE_COUNT && s0[i] == Free && SubtreeOk(s0, i) && s == s0[i := Used]
    ensures Searched(s0, s, i, OrderOf(i), Some(i))
  {
    AcquireHere(s0, i);
    AcquiredCan(s0, s, i, OrderOf(i), i);
    LowestHere(s0, i);
  }

  lemma SearchedBelow(s0: seq<NodeState>, mid: seq<NodeState>, s: seq<NodeState>, i: nat, c: nat, order: int, r: nat)
    requires |s0| == NODE_COUNT && i < NODE_COUNT && !IsLeaf(i) && SubtreeOk(s0, i)
    requires s0[i] != Used && mid == s0[i := Split]
    requires c == 2 * i + 1 || c == 2 * i + 2
    requires OrderOf(i) > order && (c == 2 * i + 2 ==> !CanAcquire(mid, 2 * i + 1, order))
    requires Searched(mid, s, c, order, Some(r))
    ensures Searched(s0, s, i, order, Some(r))
  {
    AcquireBelow(s0, mid, s, i, c, order, r);
    AcquiredCan(s0, s, i, order, r);
    LowestBelow(s0, mid, i, c, order, r);
  }

  /** Both halves failed: the node is put back and nothing was acquirable. */
  lemma SearchedNowhere(s0: seq<NodeState>, mid: seq<NodeState>, i: nat, order: int)
    requires |s0| == NODE_COUNT && i < NODE_COUNT && !IsLeaf(i) && SubtreeOk(s0, i)
    requires s0[i] != Used && OrderOf(i) > order && mid == s0[i := Split]
    requires Searched(mid, mid, 2 * i + 1, order, None) && Searched(mid, mid, 2 * i + 2, order, None)
    ensures 2 * i + 2 < NODE_COUNT
    ensures (if mid[2 * i + 1] == Free && mid[2 * i + 2] == Free then mid[i := Free] else mid) == s0
    ensures Searched(s0, s0, i, order, None)
  {
    EnterOk(s0, i);
    CanSame(s0, mid, 2 * i + 1, order);
    CanSame(s0, mid, 2 * i + 2, order);
    CanSplit(s0, i, order);
    FailedSearchRestores(s0, i);
  }

  // ---------------------------------------------------------------------
  // build_tree, required_order

  /** Every node of the subtree of `i` is FREE. */
  ghost predicate AllFree(s: seq<NodeState>, i: nat)
    requires |s| == NODE_COUNT
  {
    forall j: nat :: j < NODE_COUNT && InSubtree(j, i) ==> s[j] == Free
  }

  lemma BuiltLeaf(s0: seq<NodeState>, s: seq<NodeState>, i: nat)
    requires |s0| == NODE_COUNT && i < NODE_COUNT && IsLeaf(i) && s == s0[i := Free]
    ensures AllFree(s, i) && Outside(s0, s, i)
  {
    forall j: nat | j < NODE_COUNT && InSubtree(j, i)
      ensures j == i
    {
      SubtreeBelow(j, i);
    }
  }

  lemma BuiltInner(s0: seq<NodeState>, s1: seq<NodeState>, s2: seq<NodeState>, s3: seq<NodeState>, i: nat)
    requires |s0| == NODE_COUNT && i < NODE_COUNT && !IsLeaf(i) && s1 == s0[i := Free]
    requires |s2| == NODE_COUNT && |s3| == NODE_COUNT
    requires Outside(s1, s2, 2 * i + 1) && AllFree(s2, 2 * i + 1)
    requires Outside(s2, s3, 2 * i + 2) && AllFree(s3, 2 * i + 2)
    ensures AllFree(s3, i) && Outside(s0, s3, i)
  {
    OtherHalfSame(s2, s3, i, 2 * i + 2, 2 * i + 1);
    assert !InSubtree(i, 2 * i + 1) && !InSubtree(i, 2 * i + 2);
    forall j: nat | j < NODE_COUNT && InSubtree(j, i)
      ensures s3[j] == Free
    {
      if j != i {
        SubtreeSplit(j, i);
      }
    }
    forall j: nat | j < NODE_COUNT && !InSubtree(j, i)
      ensures s0[j] == s3[j]
    {
      ParentInSubtree(2 * i + 1, i);
      if InSubtree(j, 2 * i + 1) {
        SubtreeTrans(j, 2 * i + 1, i);
      }
      if InSubtree(j, 2 * i + 2) {
        SubtreeTrans(j, 2 * i + 2, i);
      }
    }
  }

  lemma AllFreeInitial(s: seq<NodeState>)
    requires |s| == NODE_COUNT && AllFree(s, 0)
    ensures s == InitialTree()
  {
    forall j: nat | j < NODE_COUNT
      ensures s[j] == Free
    {
      RootAbove(j);
    }
  }

  /** The order `required_order` counts up to from 5: the least order in
      [5, 19] whose block holds `size` bytes, or 20 when none does. */
  ghost function FitOrder(size: nat): (o: nat)
    ensures HEAP_ORDER_MIN <= o <= HEAP_ORDER_MAX + 1
    ensures o <= HEAP_ORDER_MAX ==> BlockSize(o) >= size
    ensures forall k: nat :: HEAP_ORDER_MIN <= k < o ==> BlockSize(k) < size
  {
    FitFrom(HEAP_ORDER_MIN, size)
  }

  ghost function FitFrom(o: nat, size: nat): (r: nat)
    requires o <= HEAP_ORDER_MAX + 1
    ensures o <= r <= HEAP_ORDER_MAX + 1
    ensures r <= HEAP_ORDER_MAX ==> BlockSize(r) >= size
    ensures forall k: nat :: o <= k < r ==> BlockSize(k) < size
    decreases HEAP_ORDER_MAX + 1 - o
  {
    if o > HEAP_ORDER_MAX || BlockSize(o) >= size then o else FitFrom(o + 1, size)
  }

  /** Every request that fits the heap has an order. */
  lemma FitOrderInRange(size: nat)
    requires size <= HEAP_SIZE
    ensures FitOrder(size) <= HEAP_ORDER_MAX
  {
    assert Pow2(15) == 0x8000;
    assert BlockSize(19) == 2 * Pow2(18) == 4 * Pow2(17) == 8 * Pow2(16) == 16 * Pow2(15);
  }

  // ---------------------------------------------------------------------
  // coalesce_up

  /** The state `coalesce_up(cur)` expects: every node but `cur` keeps the
      rule, `cur` is SPLIT unless it is a leaf (which keeps the rule), and
      everything above `cur` is SPLIT. */
  ghost predicate CoalesceReady(s: seq<NodeState>, cur: Option<nat>)
  {
    && |s| == NODE_COUNT
    && (cur.None? ==> Wellformed(s))
    && (cur.Some? ==>
          && cur.value < NODE_COUNT
          && (forall j: nat :: j < NODE_COUNT && j != cur.value ==> NodeOk(s, j))
          && (IsLeaf(cur.value) ==> NodeOk(s, cur.value))
          && (!IsLeaf(cur.value) ==> s[cur.value] == Split)
          && (forall b: nat :: b < NODE_COUNT && InSubtree(cur.value, b) && b != cur.value ==> s[b] == Split))
  }

  /** What `coalesce_up(start)` may do from `s0` to `s`: turn SPLIT nodes
      at or above `start` FREE, nothing else. */
  ghost predicate Merged(s0: seq<NodeState>, s: seq<NodeState>, start: Option<nat>)
    requires |s0| == NODE_COUNT && |s| == NODE_COUNT
  {
    forall j: nat :: j < NODE_COUNT && s[j] != s0[j] ==>
      s0[j] == Split && s[j] == Free && start.Some? && InSubtree(start.value, j)
  }

  /** Merging a SPLIT node whose halves are both FREE: the walk moves on
      to the parent, and the free bytes of the tree do not change. */
  lemma CoalesceStep(s: seq<NodeState>, c: nat)
    requires CoalesceReady(s, Some(c)) && !IsLeaf(c)
    requires 2 * c + 2 < NODE_COUNT && s[2 * c + 1] == Free && s[2 * c + 2] == Free
    ensures CoalesceReady(s[c := Free], ParentOf(c))
    ensures FreeBytes(s[c := Free], 0) == FreeBytes(s, 0)
  {
    MergeReady(s, c);
    MergeKeepsFree(s, c);
  }

  /** After the merge every node but the parent is well formed, and all
      above the parent is still SPLIT. */
  lemma MergeReady(s: seq<NodeState>, c: nat)
    requires CoalesceReady(s, Some(c)) && !IsLeaf(c)
    requires 2 * c + 2 < NODE_COUNT && s[2 * c + 1] == Free && s[2 * c + 2] == Free
    ensures CoalesceReady(s[c := Free], ParentOf(c))
  {
    var t := s[c := Free];
    forall j: nat | j < NODE_COUNT && (ParentOf(c).None? || j != ParentOf(c).value)
      ensures NodeOk(t, j)
    {
      if j != c {
        assert NodeOk(s, j);
      }
    }
    if c > 0 {
      var p := (c - 1) / 2;
      forall b: nat | b < NODE_COUNT && InSubtree(p, b) && b != p
        ensures t[b] == Split
      {
        SubtreeTrans(c, p, b);
        SubtreeAtLeast(p, b);
      }
    }
  }

  /** Merging two FREE halves into one FREE block leaves the free bytes of
      the tree as they were. */
  lemma MergeKeepsFree(s: seq<NodeState>, c: nat)
    requires CoalesceReady(s, Some(c)) && !IsLeaf(c)
    requires 2 * c + 2 < NODE_COUNT && s[2 * c + 1] == Free && s[2 * c + 2] == Free
    ensures FreeBytes(s[c := Free], 0) == FreeBytes(s, 0)
  {
    Halves(c);
    RootAbove(c);
    FreeBytesUp(s, s[c := Free], c, 0, 0);
  }

  /** Stopping at a SPLIT node whose halves are not both FREE leaves a
      well-formed tree. */
  lemma CoalesceStop(s: seq<NodeState>, c: nat)
    requires CoalesceReady(s, Some(c)) && !IsLeaf(c)
    requires 2 * c + 2 < NODE_COUNT && !(s[2 * c + 1] == Free && s[2 * c + 2] == Free)
    ensures s[c := Split] == s && Wellformed(s)
  {
    assert NodeOk(s, c);
  }

  /** A leaf has no halves: the walk moves on to its parent. */
  lemma CoalesceLeaf(s: seq<NodeState>, c: nat)
    requires CoalesceReady(s, Some(c)) && IsLeaf(c)
    ensures CoalesceReady(s, ParentOf(c))
  {
    var p := (c - 1) / 2;
    forall b: nat | b < NODE_COUNT && InSubtree(p, b) && b != p
      ensures s[b] == Split
    {
      SubtreeTrans(c, p, b);
      SubtreeAtLeast(p, b);
    }
  }

  /** Freeing a USED node readies its parent for coalescing and gives the
      tree back exactly that node's block. */
  lemma FreeReady(s: seq<NodeState>, n: nat)
    requires Wellformed(s) && n < NODE_COUNT && s[n] == Used
    ensures CoalesceReady(s[n := Free], ParentOf(n))
    ensures FreeBytes(s[n := Free], 0) == FreeBytes(s, 0) + Size(n)
  {
    var t := s[n := Free];
    FreeReadyRule(s, t, n);
    FreeReadyAbove(s, t, n);
    RootAbove(n);
    FreeBytesUp(s, t, n, 0, Size(n));
  }

  lemma FreeReadyRule(s: seq<NodeState>, t: seq<NodeState>, n: nat)
    requires Wellformed(s) && n < NODE_COUNT && s[n] == Used && t == s[n := Free]
    ensures forall j: nat :: j < NODE_COUNT && (n == 0 || j != (n - 1) / 2) ==> NodeOk(t, j)
  {
    forall j: nat | j < NODE_COUNT && (n == 0 || j != (n - 1) / 2)
      ensures NodeOk(t, j)
    {
      assert NodeOk(s, j);
    }
  }

  lemma FreeReadyAbove(s: seq<NodeState>, t: seq<NodeState>, n: nat)
    requires Wellformed(s) && n < NODE_COUNT && s[n] == Used && t == s[n := Free]
    ensures forall b: nat :: b < NODE_COUNT && InSubtree(n, b) && b != n ==> s[b] == Split
    ensures n > 0 ==> forall b: nat :: b < NODE_COUNT && InSubtree((n - 1) / 2, b) && b != (n - 1) / 2 ==> t[b] == Split
  {
    forall b: nat | b < NODE_COUNT && InSubtree(n, b) && b != n
      ensures s[b] == Split
    {
      AboveUsedSplit(s, n, b);
    }
    if n > 0 {
      var p := (n - 1) / 2;
      forall b: nat | b < NODE_COUNT && InSubtree(p, b) && b != p
        ensures t[b] == Split
      {
        SubtreeTrans(n, p, b);
        SubtreeAtLeast(p, b);
      }
    }
  }

  // ---------------------------------------------------------------------
  // free_bytes, mem_status

  /** The bytes of the USED blocks below `i`; what `mem_status` reports as
      used is the heap minus `free_bytes`, and `FreeUsedTotal` says that is
      this. */
  function UsedBytes(s: seq<NodeState>, i: nat): (r: nat)
    requires |s| == NODE_COUNT
    ensures i < NODE_COUNT ==> r <= Size(i)
    decreases if i < NODE_COUNT then NODE_COUNT - i else 0
  {
    if i >= NODE_COUNT then 0
    else if s[i] == Used then Size(i)
    else if s[i] == Split then
      HalvesIfInner(i);
      UsedBytes(s, 2 * i + 1) + UsedBytes(s, 2 * i + 2)
    else 0
  }

  /** In a well-formed subtree every byte is free or used, never both. */
  lemma {:induction false} FreeUsedTotal(s: seq<NodeState>, i: nat)
    requires |s| == NODE_COUNT && i < NODE_COUNT && SubtreeOk(s, i)
    ensures FreeBytes(s, i) + UsedBytes(s, i) == Size(i)
    decreases NODE_COUNT - i
  {
    if s[i] == Split {
      assert NodeOk(s, i);
      ChildrenOk(s, i);
      HalvesIfInner(i);
      FreeUsedTotal(s, 2 * i + 1);
      FreeUsedTotal(s, 2 * i + 2);
    }
  }

  /** A well-formed subtree holding no USED node is one FREE block:
      freeing every allocation coalesces the tree back to its root. */
  lemma {:induction false} NothingUsedFree(s: seq<NodeState>, i: nat)
    requires |s| == NODE_COUNT && i < NODE_COUNT && SubtreeOk(s, i)
    requires forall j: nat :: j < NODE_COUNT && InSubtree(j, i) ==> s[j] != Used
    ensures s[i] == Free
    decreases NODE_COUNT - i
  {
    assert NodeOk(s, i);
    if !IsLeaf(i) {
      ChildrenOk(s, i);
      ParentInSubtree(2 * i + 1, i);
      ParentInSubtree(2 * i + 2, i);
      forall j: nat | j < NODE_COUNT && (InSubtree(j, 2 * i + 1) || InSubtree(j, 2 * i + 2))
        ensures s[j] != Used
      {
        if InSubtree(j, 2 * i + 1) {
          SubtreeTrans(j, 2 * i + 1, i);
        } else {
          SubtreeTrans(j, 2 * i + 2, i);
        }
      }
      NothingUsedFree(s, 2 * i + 1);
      NothingUsedFree(s, 2 * i + 2);
    }
  }

  /** With nothing allocated the whole heap is free and none of it used. */
  lemma IdleHeap(s: seq<NodeState>)
    requires Wellformed(s) && forall j: nat :: j < NODE_COUNT ==> s[j] != Used
    ensures FreeBytes(s, 0) == HEAP_SIZE && UsedBytes(s, 0) == 0
  {
    OkAll(s);
    NothingUsedFree(s, 0);
    RootLayout();
  }

  lemma OkAll(s: seq<NodeState>)
    requires |s| == NODE_COUNT
    ensures SubtreeOk(s, 0) <==> Wellformed(s)
  {
    if SubtreeOk(s, 0) {
      forall j: nat | j < NODE_COUNT
        ensures NodeOk(s, j)
      {
        RootAbove(j);
      }
    }
  }

  // ---------------------------------------------------------------------
  // Allocation headers

  /** Every header written holds NULL or the node whose block starts there. */
  ghost predicate HeadersPoint(h: map<nat, Option<nat>>)
  {
    forall a :: a in h && h[a].Some? ==> h[a].value < NODE_COUNT && BaseOf(h[a].value) == a
  }

  /** Every USED node has its header at the start of its block. */
  ghost predicate HeadersCover(s: seq<NodeState>, h: map<nat, Option<nat>>)
    requires |s| == NODE_COUNT
  {
    forall n: nat :: n < NODE_COUNT && s[n] == Used ==> BaseOf(n) in h && h[BaseOf(n)] == Some(n)
  }

  /** Writing the header of a freshly acquired node overwrites no other
      USED node's header. */
  lemma AllocHeaders(s0: seq<NodeState>, s: seq<NodeState>, n: nat, order: int, h: map<nat, Option<nat>>)
    requires Acquired(s0, s, 0, order, n) && Wellformed(s) && HeadersCover(s0, h)
    ensures HeadersCover(s, h[BaseOf(n) := Some(n)])
  {
    forall m: nat | m < NODE_COUNT && s[m] == Used && m != n
      ensures BaseOf(m) in h && h[BaseOf(m)] == Some(m) && BaseOf(m) != BaseOf(n)
    {
      RootAbove(m);
      UsedApart(s, m, n);
    }
  }

  /** What a successful `mem_alloc(size)` did, from tree `s0` and headers
      `h0` to `s` and `h`, returning `r`: the header just before `r` names a
      node `n` whose block starts there and holds `size` bytes past the
      header; that header is the only one written; and `n` is the node
      `acquire_node` took for the least order holding the request, the
      lowest-based one it could take. */
  ghost predicate Allocated(s0: seq<NodeState>, s: seq<NodeState>, h0: map<nat, Option<nat>>,
                            h: map<nat, Option<nat>>, size: nat, r: nat)
  {
    && r >= HEADER_SIZE && r - HEADER_SIZE in h
    && h[r - HEADER_SIZE].Some?
    && var n := h[r - HEADER_SIZE].value;
    && n < NODE_COUNT
    && h == h0[BaseOf(n) := Some(n)]
    && BaseOf(n) + HEADER_SIZE == r
    && size + HEADER_SIZE <= Size(n)
    && Acquired(s0, s, 0, FitOrder(size + HEADER_SIZE), n)
    && Lowest(s0, 0, FitOrder(size + HEADER_SIZE), n)
  }

  /** The heap `mem_alloc` leaves once `acquire_node` has found node `n`
      and its header is written: still well formed, every header in
      place, and the pointer just past the header gives `size` bytes. */
  lemma AllocOk(s0: seq<NodeState>, s: seq<NodeState>, h0: map<nat, Option<nat>>, h: map<nat, Option<nat>>,
                n: nat, order: int, size: nat, r: nat)
    requires |s0| == NODE_COUNT && HeadersPoint(h0) && HeadersCover(s0, h0)
    requires Acquired(s0, s, 0, order, n) && Lowest(s0, 0, order, n) && order == FitOrder(size + HEADER_SIZE)
    requires h == h0[BaseOf(n) := Some(n)] && r == BaseOf(n) + HEADER_SIZE
    ensures Wellformed(s) && HeadersPoint(h) && HeadersCover(s, h)
    ensures Allocated(s0, s, h0, h, size, r)
  {
    OkAll(s);
    AllocHeaders(s0, s, n, order, h0);
    PointSet(h0, n);
    HeaderBefore(h0, h, n, r);
    SizeFits(n, size + HEADER_SIZE);
  }

  /** The header just before the pointer `mem_alloc` returns names the
      node it allocated. */
  lemma HeaderBefore(h0: map<nat, Option<nat>>, h: map<nat, Option<nat>>, n: nat, r: nat)
    requires n < NODE_COUNT
    requires h == h0[BaseOf(n) := Some(n)] && r == BaseOf(n) + HEADER_SIZE
    ensures r >= HEADER_SIZE && r - HEADER_SIZE in h && h[r - HEADER_SIZE] == Some(n)
  {
  }

  /** Writing node `n`'s header at the start of its block keeps every
      header naming the node whose block starts there. */
  lemma PointSet(h0: map<nat, Option<nat>>, n: nat)
    requires HeadersPoint(h0) && n < NODE_COUNT
    ensures HeadersPoint(h0[BaseOf(n) := Some(n)])
  {
  }

  /** A node of the order `mem_alloc` computes holds the requested bytes. */
  lemma SizeFits(n: nat, size: nat)
    requires n < NODE_COUNT && OrderOf(n) == FitOrder(size)
    ensures size <= Size(n)
  {
    NodeOrder(n);
  }

  /** Clearing the header of a freed node leaves every other USED node's
      header in place. */
  lemma FreeHeaders(s0: seq<NodeState>, s: seq<NodeState>, n: nat, h: map<nat, Option<nat>>)
    requires Wellformed(s0) && n < NODE_COUNT && s0[n] == Used && HeadersCover(s0, h)
    requires |s| == NODE_COUNT && Merged(s0[n := Free], s, ParentOf(n))
    ensures HeadersCover(s, h[BaseOf(n) := None]) && s[n] == Free
  {
    forall m: nat | m < NODE_COUNT && s[m] == Used
      ensures m != n && BaseOf(m) in h && h[BaseOf(m)] == Some(m) && BaseOf(m) != BaseOf(n)
    {
      assert s[m] == s0[n := Free][m];
      UsedApart(s0, m, n);
    }
  }

  // ---------------------------------------------------------------------
  // The allocator

  /** The ways out of `mem_free`: NULL or no tree yet (left alone), a
      header that names NULL or a node that is not USED, or the release of
      the named node. */
  datatype FreeExit = Ignored | InvalidHeader | Freed(node: nat)

  /** Which way `mem_free(ptr)` leaves, for the tree `s`, the headers `h`
      and whether `mem_init` has run. */
  function FreeExitOf(s: seq<NodeState>, h: map<nat, Option<nat>>, initialized: bool, ptr: Option<nat>): (r: FreeExit)
    requires |s| == NODE_COUNT && HeadersPoint(h)
    requires initialized && ptr.Some? ==> ptr.value >= HEADER_SIZE && ptr.value - HEADER_SIZE in h
    ensures r.Ignored? <==> ptr.None? || !initialized
    ensures r.Freed? ==> ptr.Some? && r.node < NODE_COUNT && s[r.node] == Used && h[ptr.value - HEADER_SIZE] == Some(r.node)
    ensures r.InvalidHeader? <==>
              && ptr.Some? && initialized
              && (h[ptr.value - HEADER_SIZE].None? || s[h[ptr.value - HEADER_SIZE].value] != Used)
  {
    if ptr.None? || !initialized then Ignored
    else
      var n := h[ptr.value - HEADER_SIZE];
      if n.None? || s[n.value] != Used then InvalidHeader else Freed(n.value)
  }

  /** Freeing a pointer a second time: once `mem_free` has cleared the
      header in front of it, the next `mem_free` of the same pointer takes
      the invalid-header way out, whatever the tree. */
  lemma DoubleFree(s: seq<NodeState>, h: map<nat, Option<nat>>, ptr: nat)
    requires |s| == NODE_COUNT && HeadersPoint(h) && ptr >= HEADER_SIZE && ptr - HEADER_SIZE in h
    ensures HeadersPoint(h[ptr - HEADER_SIZE := None])
    ensures FreeExitOf(s, h[ptr - HEADER_SIZE := None], true, Some(ptr)) == InvalidHeader
  {
  }

  class BuddyHeap {
    /** The `state` of every entry of `nodes[]`. */
    const nodes: array<NodeState>
    /** `root != NULL`: `mem_init` has run. */
    var initialized: bool
    /** The processor's interrupt flag, which `_cli` clears and `_sti`
        sets. */
    var interruptsOn: bool
    /** The allocation headers written into the heap: the header at
        address `a` holds `headers[a]` (`None` for NULL). */
    var headers: map<nat, Option<nat>>

    ghost predicate Valid()
      reads this, nodes
    {
      && nodes.Length == NODE_COUNT
      && (initialized ==> Wellformed(nodes[..]))
      && HeadersPoint(headers)
      && (initialized ==> HeadersCover(nodes[..], headers))
    }

    /** The zero-filled static state: every node FREE, `root` NULL and no
        header written. */
    constructor ()
      ensures Valid() && fresh(nodes) && !initialized && headers == map[] && interruptsOn
      ensures nodes[..] == InitialTree()
    {
      nodes := new NodeState[NODE_COUNT](_ => Free);
      initialized := false;
      interruptsOn := true;
      headers := map[];
    }

    /** `acquire_node`: searches the subtree of `node` left half first for
        a FREE node of `order`, marking the nodes it passes SPLIT; it finds
        one exactly when one can be acquired there, and otherwise leaves
        every node as it was. */
    method AcquireNode(node: Option<nat>, order: int) returns (r: Option<nat>)
      requires nodes.Length == NODE_COUNT
      requires node.Some? ==> node.value < NODE_COUNT && SubtreeOk(nodes[..], node.value)
      modifies nodes
      decreases if node.Some? && node.value < NODE_COUNT then NODE_COUNT - node.value else 0, 2
      ensures node.None? ==> r.None? && nodes[..] == old(nodes[..])
      ensures node.Some? ==> Searched(old(nodes[..]), nodes[..], node.value, order, r)
    {
      if node.None? {
        return None;
      }
      var i := node.value;
      NodeOrder(i);
      OrdersBelow(nodes[..], i, order);
      if nodes[i] == Used {
        CannotUnderUsed(nodes[..], i, order);
        SearchedNothing(nodes[..], i, order);
        return None;
      }
      if OrderOf(i) < order {
        SearchedNothing(nodes[..], i, order);
        return None;
      }
      if OrderOf(i) == order {
        if nodes[i] == Free {
          ghost var s0 := nodes[..];
          nodes[i] := Used;
          SearchedHere(s0, nodes[..], i);
          return Some(i);
        }
        SearchedNothing(nodes[..], i, order);
        return None;
      }
      if IsLeaf(i) {
        SearchedNothing(nodes[..], i, order);
        return None;
      }
      r := Descend(i, order);
    }

    /** The rest of `acquire_node` at an inner node that is not USED and
        whose order is above the one sought: mark it SPLIT, try the left
        half, then the right half, and undo the SPLIT when both halves are
        still FREE. */
    method Descend(i: nat, order: int) returns (r: Option<nat>)
      requires nodes.Length == NODE_COUNT && i < NODE_COUNT && !IsLeaf(i) && SubtreeOk(nodes[..], i)
      requires nodes[i] != Used && OrderOf(i) > order
      modifies nodes
      decreases NODE_COUNT - i, 1
      ensures Searched(old(nodes[..]), nodes[..], i, order, r)
    {
      ghost var s0 := nodes[..];
      EnterOk(s0, i);
      if nodes[i] == Free {
        nodes[i] := Split;
      }
      ghost var mid := nodes[..];
      assert mid == s0[i := Split];
      r := AcquireNode(Some(2 * i + 1), order);
      if r.Some? {
        SearchedBelow(s0, mid, nodes[..], i, 2 * i + 1, order, r.value);
        return r;
      }
      r := DescendRight(i, order, s0);
    }

    /** `acquire_node` after the left half of `i` failed: try the right
        half, and undo the SPLIT of `i` when both halves are still FREE. */
    method DescendRight(i: nat, order: int, ghost s0: seq<NodeState>) returns (r: Option<nat>)
      requires nodes.Length == NODE_COUNT && |s0| == NODE_COUNT && i < NODE_COUNT && !IsLeaf(i) && SubtreeOk(s0, i)
      requires s0[i] != Used && OrderOf(i) > order && nodes[..] == s0[i := Split]
      requires Searched(nodes[..], nodes[..], 2 * i + 1, order, None)
      modifies nodes
      decreases NODE_COUNT - i, 0
      ensures Searched(s0, nodes[..], i, order, r)
    {
      ghost var mid := nodes[..];
      EnterOk(s0, i);
      r := AcquireNode(Some(2 * i + 2), order);
      if r.Some? {
        SearchedBelow(s0, mid, nodes[..], i, 2 * i + 2, order, r.value);
        return r;
      }
      SearchedNowhere(s0, mid, i, order);
      if nodes[2 * i + 1] == Free && nodes[2 * i + 2] == Free {
        nodes[i] := Free;
      }
      assert nodes[..] == s0;
      return None;
    }

    /** `build_tree(index, order, base)`: makes every node of the subtree
        of `index` FREE.  The order and base it records, and the parent and
        child links, are `OrderOf`, `BaseOf`, `ParentOf` and `2i+1`, `2i+2`
        of the index, as `Halves` and `ChildOrder` state. */
    method BuildTree(index: nat, order: int, base: nat) returns (node: nat)
      requires nodes.Length == NODE_COUNT && index < NODE_COUNT
      requires order == OrderOf(index) && base == BaseOf(index)
      modifies nodes
      decreases NODE_COUNT - index
      ensures node == index
      ensures AllFree(nodes[..], index) && Outside(old(nodes[..]), nodes[..], index)
    {
      ghost var s0 := nodes[..];
      nodes[index] := Free;
      NodeOrder(index);
      if order > HEAP_ORDER_MIN {
        Halves(index);
        ChildOrder(index);
        ghost var s1 := nodes[..];
        var leftIndex := index * 2 + 1;
        var rightIndex := leftIndex + 1;
        var half := BlockSize(order - 1);
        var left := BuildTree(leftIndex, order - 1, base);
        ghost var s2 := nodes[..];
        var right := BuildTree(rightIndex, order - 1, base + half);
        BuiltInner(s0, s1, s2, nodes[..], index);
      } else {
        BuiltLeaf(s0, nodes[..], index);
      }
      return index;
    }

    /** `mem_init`: rebuilds the whole tree, every node FREE. */
    method MemInit()
      requires Valid()
      modifies this, nodes
      ensures Valid() && initialized && headers == old(headers) && nodes[..] == InitialTree() && interruptsOn
    {
      interruptsOn := false;
      var r := BuildTree(0, HEAP_ORDER_MAX, 0);
      AllFreeInitial(nodes[..]);
      initialized := true;
      interruptsOn := true;
    }

    /** `required_order`: counts up from order 5 to the first block that
        holds `size` bytes, stopping at 20. */
    static method RequiredOrder(size: nat) returns (order: nat)
      ensures order == FitOrder(size)
    {
      order := HEAP_ORDER_MIN;
      while order <= HEAP_ORDER_MAX && BlockSize(order) < size
        invariant HEAP_ORDER_MIN <= order <= HEAP_ORDER_MAX + 1
        invariant FitFrom(order, size) == FitOrder(size)
        decreases HEAP_ORDER_MAX + 1 - order
      {
        order := order + 1;
      }
    }

    /** `coalesce_up`: walks up from `start`; a node with two FREE halves
        becomes FREE and the walk goes on to its parent, the first without
        is set SPLIT and the walk stops, a leaf passes the walk on.  The
        tree ends well formed with its free bytes unchanged. */
    method CoalesceUp(start: Option<nat>)
      requires nodes.Length == NODE_COUNT && CoalesceReady(nodes[..], start)
      modifies nodes
      ensures Wellformed(nodes[..])
      ensures FreeBytes(nodes[..], 0) == FreeBytes(old(nodes[..]), 0)
      ensures Merged(old(nodes[..]), nodes[..], start)
    {
      var cur := start;
      while cur.Some?
        invariant CoalesceReady(nodes[..], cur)
        invariant FreeBytes(nodes[..], 0) == FreeBytes(old(nodes[..]), 0)
        invariant cur.Some? ==> start.Some? && InSubtree(start.value, cur.value)
        invariant Merged(old(nodes[..]), nodes[..], start)
        decreases if cur.Some? then cur.value + 1 else 0
      {
        var i := cur.value;
        NodeOrder(i);
        if !IsLeaf(i) {
          if nodes[2 * i + 1] == Free && nodes[2 * i + 2] == Free {
            CoalesceStep(nodes[..], i);
            nodes[i] := Free;
            cur := ParentOf(i);
            if cur.Some? {
              SubtreeTrans(start.value, i, cur.value);
            }
          } else {
            CoalesceStop(nodes[..], i);
            nodes[i] := Split;
            cur := None;
          }
        } else {
          CoalesceLeaf(nodes[..], i);
          cur := ParentOf(i);
          SubtreeTrans(start.value, i, cur.value);
        }
      }
    }
  
    /** The tree `mem_alloc` and `mem_status` work on: the current one, or
        the one their call of `mem_init` builds. */
    ghost function LiveTree(): (s: seq<NodeState>)
      reads this, nodes
      requires Valid()
      ensures |s| == NODE_COUNT && Wellformed(s)
    {
      if initialized then nodes[..] else InitialTree()
    }

    /** `mem_alloc`: after the lazy `mem_init`, refuses 0 bytes and
        requests that do not fit the heap with their header, then acquires
        the first FREE block of the least order holding the request and its
        header, writes the header at the block's start and hands back the
        address just past it. */
    method MemAlloc(size: nat) returns (r: Option<nat>)
      requires Valid()
      modifies this, nodes
      ensures Valid() && initialized
      ensures r.None? <==>
                || size == 0 || size > HEAP_SIZE - HEADER_SIZE
                || FitOrder(size + HEADER_SIZE) > HEAP_ORDER_MAX
                || !CanAcquire(old(LiveTree()), 0, FitOrder(size + HEADER_SIZE))
      ensures r.None? ==> nodes[..] == old(LiveTree()) && headers == old(headers)
      ensures r.Some? ==> Allocated(old(LiveTree()), nodes[..], old(headers), headers, size, r.value)
      ensures interruptsOn
    {
      interruptsOn := false;
      if !initialized {
        MemInit();
      }
      r := AllocBlock(size);
      interruptsOn := true;
    }

    /** `mem_alloc` once the tree is built. */
    method AllocBlock(size: nat) returns (r: Option<nat>)
      requires Valid() && initialized
      modifies this, nodes
      ensures Valid() && initialized
      ensures r.None? <==>
                || size == 0 || size > HEAP_SIZE - HEADER_SIZE
                || FitOrder(size + HEADER_SIZE) > HEAP_ORDER_MAX
                || !CanAcquire(old(nodes[..]), 0, FitOrder(size + HEADER_SIZE))
      ensures r.None? ==> nodes[..] == old(nodes[..]) && headers == old(headers)
      ensures r.Some? ==> Allocated(old(nodes[..]), nodes[..], old(headers), headers, size, r.value)
    {
      OkAll(nodes[..]);
      if size == 0 || size > HEAP_SIZE {
        return None;
      }
      if size > HEAP_SIZE - HEADER_SIZE {
        return None;
      }
      var total := size + HEADER_SIZE;
      var order := RequiredOrder(total);
      if order > HEAP_ORDER_MAX {
        return None;
      }
      ghost var s0 := nodes[..];
      var node := AcquireNode(Some(0), order);
      if node.None? {
        return None;
      }
      var n := node.value;
      ghost var h0 := headers;
      var base := BaseOf(n);
      headers := headers[base := Some(n)];
      r := Some(base + HEADER_SIZE);
      AllocOk(s0, nodes[..], h0, headers, n, order, size, r.value);
    }

    /** The node `mem_free(ptr)` releases: the one the header before `ptr`
        names, when that node is USED; none for NULL, before `mem_init`,
        or for a header of NULL or of a node that is not USED. */
    ghost function Released(ptr: Option<nat>): (r: Option<nat>)
      reads this, nodes
      requires Valid()
      requires initialized && ptr.Some? ==> ptr.value >= HEADER_SIZE && ptr.value - HEADER_SIZE in headers
      ensures r.Some? ==> ptr.Some? && r.value < NODE_COUNT && nodes[r.value] == Used && BaseOf(r.value) + HEADER_SIZE == ptr.value
    {
      if !initialized || ptr.None? then None
      else
        var h := headers[ptr.value - HEADER_SIZE];
        if h.Some? && nodes[h.value] == Used then h else None
    }

    /** `mem_free` with every way out restoring the interrupt flag: clears
        the header, marks the node FREE and coalesces upward from its parent,
        giving the heap back exactly the node's block; anything else it is
        handed it leaves alone. */
    method MemFree(ptr: Option<nat>)
      requires Valid()
      requires initialized && ptr.Some? ==> ptr.value >= HEADER_SIZE && ptr.value - HEADER_SIZE in headers
      modifies this, nodes
      ensures Valid() && initialized == old(initialized) && interruptsOn
      ensures old(Released(ptr)).None? ==> nodes[..] == old(nodes[..]) && headers == old(headers)
      ensures old(Released(ptr)).Some? ==>
                && var n := old(Released(ptr)).value;
                && headers == old(headers)[ptr.value - HEADER_SIZE := None]
                && nodes[n] == Free
                && Merged(old(nodes[..])[n := Free], nodes[..], ParentOf(n))
                && FreeBytes(nodes[..], 0) == old(FreeBytes(nodes[..], 0)) + Size(n)
    {
      interruptsOn := false;
      var exit := FreeChecked(ptr);
      interruptsOn := true;
    }

    /** `mem_free` as written: the same checks and release, but the way
        out for an invalid header returns without `_sti`, leaving
        interrupts disabled. */
    method MemFreeAsWritten(ptr: Option<nat>) returns (exit: FreeExit)
      requires Valid()
      requires initialized && ptr.Some? ==> ptr.value >= HEADER_SIZE && ptr.value - HEADER_SIZE in headers
      modifies this, nodes
      ensures Valid() && initialized == old(initialized)
      ensures exit == FreeExitOf(old(nodes[..]), old(headers), initialized, ptr)
      ensures interruptsOn <==> !exit.InvalidHeader?
      ensures old(Released(ptr)).None? ==> nodes[..] == old(nodes[..]) && headers == old(headers)
      ensures old(Released(ptr)).Some? ==>
                && var n := old(Released(ptr)).value;
                && headers == old(headers)[ptr.value - HEADER_SIZE := None]
                && nodes[n] == Free
                && Merged(old(nodes[..])[n := Free], nodes[..], ParentOf(n))
                && FreeBytes(nodes[..], 0) == old(FreeBytes(nodes[..], 0)) + Size(n)
    {
      interruptsOn := false;
      exit := FreeChecked(ptr);
      if !exit.InvalidHeader? {
        interruptsOn := true;
      }
    }

    /** The checks of `mem_free` and the release they guard; the way out
        taken is handed back. */
    method FreeChecked(ptr: Option<nat>) returns (exit: FreeExit)
      requires Valid()
      requires initialized && ptr.Some? ==> ptr.value >= HEADER_SIZE && ptr.value - HEADER_SIZE in headers
      modifies this, nodes
      ensures Valid() && initialized == old(initialized) && interruptsOn == old(interruptsOn)
      ensures exit == FreeExitOf(old(nodes[..]), old(headers), initialized, ptr)
      ensures exit.Freed? <==> old(Released(ptr)).Some?
      ensures old(Released(ptr)).None? ==> nodes[..] == old(nodes[..]) && headers == old(headers)
      ensures old(Released(ptr)).Some? ==>
                && var n := old(Released(ptr)).value;
                && headers == old(headers)[ptr.value - HEADER_SIZE := None]
                && nodes[n] == Free
                && Merged(old(nodes[..])[n := Free], nodes[..], ParentOf(n))
                && FreeBytes(nodes[..], 0) == old(FreeBytes(nodes[..], 0)) + Size(n)
    {
      ghost var released := Released(ptr);
      if ptr.None? {
        assert released.None?;
        return Ignored;
      }
      if !initialized {
        assert released.None?;
        return Ignored;
      }
      var a := ptr.value - HEADER_SIZE;
      var h := headers[a];
      if h.None? || nodes[h.value] != Used {
        assert released.None?;
        return InvalidHeader;
      }
      var n := h.value;
      assert released == Some(n);
      ReleaseNode(n, a);
      return Freed(n);
    }

    /** The part of `mem_free` past its checks: header `a` names USED node
        `n`, which is cleared, freed and coalesced. */
    method ReleaseNode(n: nat, a: nat)
      requires Valid() && initialized && n < NODE_COUNT && nodes[n] == Used
      requires a in headers && headers[a] == Some(n)
      modifies this, nodes
      ensures Valid() && initialized && interruptsOn == old(interruptsOn)
      ensures headers == old(headers)[a := None]
      ensures nodes[n] == Free
      ensures Merged(old(nodes[..])[n := Free], nodes[..], ParentOf(n))
      ensures FreeBytes(nodes[..], 0) == old(FreeBytes(nodes[..], 0)) + Size(n)
    {
      ghost var s0 := nodes[..];
      ghost var h0 := headers;
      FreeReady(s0, n);
      headers := headers[a := None];
      nodes[n] := Free;
      assert nodes[..] == s0[n := Free];
      CoalesceUp(ParentOf(n));
      FreeHeaders(s0, nodes[..], n, h0);
    }

    /** `mem_status`: after the lazy `mem_init`, the heap size, the bytes
        in USED blocks and the bytes in FREE blocks, which add up to the
        heap. */
    method MemStatus() returns (total: nat, used: nat, available: nat)
      requires Valid()
      modifies this, nodes
      ensures Valid() && initialized && nodes[..] == old(LiveTree()) && headers == old(headers)
      ensures total == HEAP_SIZE && available == FreeBytes(nodes[..], 0)
      ensures used == UsedBytes(nodes[..], 0) && used + available == total
      ensures interruptsOn
    {
      interruptsOn := false;
      if !initialized {
        MemInit();
      }
      total := HEAP_SIZE;
      RootLayout();
      var freeTotal := FreeBytes(nodes[..], 0);
      available := freeTotal;
      used := HEAP_SIZE - freeTotal;
      OkAll(nodes[..]);
      FreeUsedTotal(nodes[..], 0);
      interruptsOn := true;
    }
  }
}
