/** Kernel/collections/list.c: the intrusive, sentinel-based, circular
    doubly-linked list.

    Nodes and lists are named by ids (`N`, `L`) instead of addresses:
    `LIST_ENTRY` (recovering the structure that embeds a node) becomes
    reading the id.  A pointer to a `list_node_t` is a `Ref`: NULL, the
    sentinel embedded in list `l`, or the node `n`.  One `LinkedLists`
    object holds the very fields the C code rewrites: `prev`, `next` and
    `owner` of every node and of every sentinel, and `size` of every list.
    The ghost map `Contents` is the order of each list, read from its
    sentinel forward. */
module IntrusiveList {
  import opened Common

  /** What a `list_node_t *` can point at. */
  datatype Ref<N, L> = Null | Sentinel(list: L) | Node(node: N)

  /** The link fields of all nodes and sentinels, as one value. */
  datatype Links<N(==), L(==)> = Links(
    prev: map<Ref<N, L>, Ref<N, L>>,
    next: map<Ref<N, L>, Ref<N, L>>,
    owner: map<Ref<N, L>, Option<L>>,
    size: map<L, nat>)

  /** The pointer to position `j` of list `l` holding `s`: the node there,
      or the sentinel for the positions just outside (-1 and |s|). */
  function RefAt<N, L>(l: L, s: seq<N>, j: int): (r: Ref<N, L>)
    ensures r.Sentinel? <==> !(0 <= j < |s|)
  {
    if 0 <= j < |s| then Node(s[j]) else Sentinel(l)
  }

  /** Slot `r` is initialised and holds exactly these three fields. */
  ghost predicate Linked<N, L>(k: Links<N, L>, r: Ref<N, L>, o: Option<L>, p: Ref<N, L>, q: Ref<N, L>)
  {
    r in k.owner && r in k.prev && r in k.next && k.owner[r] == o && k.prev[r] == p && k.next[r] == q
  }

  /** The node at position `i` of `l` is owned by `l` and points at its
      two neighbours on the circle. */
  ghost predicate NodeAt<N, L>(k: Links<N, L>, l: L, s: seq<N>, i: nat)
    requires i < |s|
  {
    Linked(k, Node(s[i]), Some(l), RefAt(l, s, i - 1), RefAt(l, s, i + 1))
  }

  /** List `l` is the circle sentinel, s[0], ..., s[|s|-1], sentinel, in
      both directions, and its size field counts its nodes.  The sentinel
      itself is owned by no list (list_init sets its owner to NULL). */
  ghost predicate Chain<N, L>(k: Links<N, L>, l: L, s: seq<N>)
  {
    && l in k.size && k.size[l] == |s|
    && Linked(k, Sentinel(l), None, RefAt(l, s, |s| - 1), RefAt(l, s, 0))
    && (forall i {:trigger NodeAt(k, l, s, i)} :: 0 <= i < |s| ==> NodeAt(k, l, s, i))
  }

  /** Every initialised list is a well-formed circle holding `c[l]`; an
      unlinked node has NULL links; a node's owner lists it. */
  ghost predicate WellLinked<N, L>(k: Links<N, L>, c: map<L, seq<N>>)
  {
    && (forall l :: l in c ==> l in k.size) && (forall l :: l in k.size ==> l in c)
    && (forall r :: r in k.owner ==> r in k.prev && r in k.next)
    && (forall r :: r in k.prev ==> r in k.owner) && (forall r :: r in k.next ==> r in k.owner)
    && (forall l :: l in c ==> Chain(k, l, c[l]))
    && (forall r :: r in k.owner && r.Node? && k.owner[r].None? ==> k.prev[r] == Null && k.next[r] == Null)
    && (forall r :: r in k.owner && r.Node? && k.owner[r].Some? ==>
          k.owner[r].value in c && r.node in c[k.owner[r].value])
  }

  /** The first position of `x` in `s`. */
  ghost function FirstIndex<N>(s: seq<N>, x: N): (i: nat)
    requires x in s
    ensures i < |s| && s[i] == x && x !in s[..i]
  {
    if s[0] == x then 0 else FirstIndex(s[1..], x) + 1
  }

  /** `s` with its first occurrence of `x` taken out. */
  ghost function Without<N>(s: seq<N>, x: N): (r: seq<N>)
    ensures x in s ==> |r| == |s| - 1
    ensures x !in s ==> r == s
  {
    if s == [] then []
    else if s[0] == x then s[1..]
    else [s[0]] + Without(s[1..], x)
  }

  /** Taking out the first `x` is cutting it out at its first position. */
  lemma {:induction false} WithoutAt<N>(s: seq<N>, i: nat)
    requires i < |s| && s[i] !in s[..i]
    ensures Without(s, s[i]) == s[..i] + s[i + 1..]
  {
    if i > 0 {
      assert s[0] in s[..i];
      assert s[1..][..i - 1] == s[1..i];
      WithoutAt(s[1..], i - 1);
      assert [s[0]] + s[1..i] == s[..i];
    }
  }

  /** Only `x` leaves: every other element stays. */
  lemma {:induction false} WithoutKeeps<N>(s: seq<N>, x: N, m: N)
    requires m in s && m != x
    ensures m in Without(s, x)
  {
    if s[0] != m {
      assert m in s[1..];
      if s[0] != x {
        WithoutKeeps(s[1..], x, m);
      }
    }
  }

  /** Inserting at position 0 or |s| is prepending or appending. */
  lemma InsertAtEnds<N>(s: seq<N>, x: N)
    ensures s[..0] + [x] + s[0..] == [x] + s
    ensures s[..|s|] + [x] + s[|s|..] == s + [x]
  {
  }

  /** A second update of the same key overrides the first. */
  lemma UpdateTwice<K, V>(m: map<K, V>, x: K, a: V, b: V)
    ensures m[x := a][x := b] == m[x := b]
  {
  }

  /** The nodes of a list are pairwise distinct: each node's `prev` pins
      down its predecessor, back to the sentinel. */
  lemma {:induction false} ChainDistinct<N, L>(k: Links<N, L>, l: L, s: seq<N>, i: nat, j: nat)
    requires Chain(k, l, s) && i < j < |s|
    ensures s[i] != s[j]
  {
    assert NodeAt(k, l, s, i) && NodeAt(k, l, s, j);
    if i > 0 && s[i] == s[j] {
      ChainDistinct(k, l, s, i - 1, j - 1);
    }
  }

  /** A node of list `l` is a node of `l` only. */
  lemma OwnedOnly<N, L>(k: Links<N, L>, c: map<L, seq<N>>, n: N, l: L)
    requires WellLinked(k, c) && l in c && n in c[l]
    ensures Node(n) in k.owner && k.owner[Node(n)] == Some(l)
  {
    var i :| 0 <= i < |c[l]| && c[l][i] == n;
    assert Chain(k, l, c[l]) && NodeAt(k, l, c[l], i);
  }

  /** The slot `r` holds the same three fields in `k` and in `k'`. */
  ghost predicate Same<N, L>(k: Links<N, L>, k': Links<N, L>, r: Ref<N, L>)
  {
    r in k.owner && r in k.prev && r in k.next && Linked(k', r, k.owner[r], k.prev[r], k.next[r])
  }

  /** A chain depends only on its own sentinel, its own nodes and its
      own size field. */
  lemma ChainFrame<N, L>(k: Links<N, L>, k': Links<N, L>, l: L, s: seq<N>)
    requires Chain(k, l, s)
    requires l in k'.size && k'.size[l] == k.size[l] && Same(k, k', Sentinel(l))
    requires forall i :: 0 <= i < |s| ==> Same(k, k', Node(s[i]))
    ensures Chain(k', l, s)
  {
    forall i | 0 <= i < |s|
      ensures NodeAt(k', l, s, i)
    {
      assert NodeAt(k, l, s, i);
    }
  }

  /** The fields after `list_attach(l, n, p, q)`, in the order the C code
      writes them. */
  function AttachLinks<N, L>(k: Links<N, L>, l: L, n: N, p: Ref<N, L>, q: Ref<N, L>): Links<N, L>
    requires l in k.size
  {
    Links(k.prev[Node(n) := p][q := Node(n)], k.next[Node(n) := q][p := Node(n)],
          k.owner[Node(n) := Some(l)], k.size[l := k.size[l] + 1])
  }

  /** The fields after `list_remove` of `n`, whose neighbours are `p` and
      `q`, in the order the C code writes them. */
  function DetachLinks<N, L>(k: Links<N, L>, l: L, n: N, p: Ref<N, L>, q: Ref<N, L>): Links<N, L>
    requires l in k.size && k.size[l] > 0
  {
    Links(k.prev[q := p][Node(n) := Null], k.next[p := q][Node(n) := Null],
          k.owner[Node(n) := None], k.size[l := k.size[l] - 1])
  }

  /** Attaching an unlinked node at position `i` of `l` inserts it there. */
  lemma AttachSelf<N, L>(k: Links<N, L>, l: L, s: seq<N>, n: N, i: nat)
    requires Chain(k, l, s) && i <= |s| && Node(n) in k.owner && k.owner[Node(n)].None?
    ensures Chain(AttachLinks(k, l, n, RefAt(l, s, i - 1), RefAt(l, s, i)), l, s[..i] + [n] + s[i..])
  {
    var t := s[..i] + [n] + s[i..];
    var k' := AttachLinks(k, l, n, RefAt(l, s, i - 1), RefAt(l, s, i));
    NotInChain(k, l, s, n);
    forall j | 0 <= j < |t|
      ensures NodeAt(k', l, t, j)
    {
      if j < i {
        assert t[j] == s[j] && NodeAt(k, l, s, j);
        if j + 1 < i { ChainDistinct(k, l, s, j, i - 1); }
        if i < |s| { ChainDistinct(k, l, s, j, i); }
      } else if j > i {
        assert t[j] == s[j - 1] && NodeAt(k, l, s, j - 1);
        if j > i + 1 { ChainDistinct(k, l, s, i, j - 1); }
        if i > 0 { ChainDistinct(k, l, s, i - 1, j - 1); }
      }
    }
  }

  /** Removing the node at position `i` of `l` cuts it out there. */
  lemma DetachSelf<N, L>(k: Links<N, L>, l: L, s: seq<N>, i: nat)
    requires Chain(k, l, s) && i < |s|
    ensures Chain(DetachLinks(k, l, s[i], RefAt(l, s, i - 1), RefAt(l, s, i + 1)), l, s[..i] + s[i + 1..])
  {
    var t := s[..i] + s[i + 1..];
    var k' := DetachLinks(k, l, s[i], RefAt(l, s, i - 1), RefAt(l, s, i + 1));
    forall j | 0 <= j < |t|
      ensures NodeAt(k', l, t, j)
    {
      if j < i {
        assert t[j] == s[j] && NodeAt(k, l, s, j);
        ChainDistinct(k, l, s, j, i);
        if j + 1 < i { ChainDistinct(k, l, s, j, i - 1); }
        if i + 1 < |s| { ChainDistinct(k, l, s, j, i + 1); }
      } else {
        assert t[j] == s[j + 1] && NodeAt(k, l, s, j + 1);
        ChainDistinct(k, l, s, i, j + 1);
        if j > i { ChainDistinct(k, l, s, i + 1, j + 1); }
        if i > 0 { ChainDistinct(k, l, s, i - 1, j + 1); }
      }
    }
    if i > 0 {
      ChainDistinct(k, l, s, i - 1, i);
    }
  }

  /** An unlinked node is in no list. */
  lemma NotInChain<N, L>(k: Links<N, L>, l: L, s: seq<N>, n: N)
    requires Chain(k, l, s) && Node(n) in k.owner && k.owner[Node(n)].None?
    ensures n !in s
  {
    forall j | 0 <= j < |s|
      ensures s[j] != n
    {
      assert NodeAt(k, l, s, j);
    }
  }

  /** Attaching into `l` leaves every other list's chain alone. */
  lemma AttachOthers<N, L>(k: Links<N, L>, c: map<L, seq<N>>, l: L, n: N, i: nat, l2: L)
    requires WellLinked(k, c)
    requires l in c && Node(n) in k.owner && k.owner[Node(n)].None? && i <= |c[l]|
    requires l2 in c && l2 != l
    ensures Chain(AttachLinks(k, l, n, RefAt(l, c[l], i - 1), RefAt(l, c[l], i)), l2, c[l2])
  {
    var s, u := c[l], c[l2];
    var k' := AttachLinks(k, l, n, RefAt(l, s, i - 1), RefAt(l, s, i));
    assert Chain(k, l, s) && Chain(k, l2, u);
    forall j | 0 <= j < |u|
      ensures Same(k, k', Node(u[j]))
    {
      assert NodeAt(k, l2, u, j);
      if 0 <= i - 1 { assert NodeAt(k, l, s, i - 1); }
      if i < |s| { assert NodeAt(k, l, s, i); }
    }
    ChainFrame(k, k', l2, u);
  }

  /** After attaching, every linked node is still listed by its owner. */
  lemma AttachOwners<N, L>(k: Links<N, L>, c: map<L, seq<N>>, l: L, n: N, i: nat, r: Ref<N, L>)
    requires WellLinked(k, c)
    requires l in c && Node(n) in k.owner && k.owner[Node(n)].None? && i <= |c[l]|
    requires r in k.owner && r.Node? && r != Node(n) && k.owner[r].Some?
    ensures k.owner[r].value in c && r.node in c[l := c[l][..i] + [n] + c[l][i..]][k.owner[r].value]
  {
    var s := c[l];
    var t := s[..i] + [n] + s[i..];
    if k.owner[r].value == l {
      var j :| 0 <= j < |s| && s[j] == r.node;
      assert t[if j < i then j else j + 1] == r.node;
    }
  }

  /** `list_attach` of an unlinked node at position `i` of `l` keeps every
      list well formed and inserts the node at that position. */
  lemma AttachOk<N, L>(k: Links<N, L>, c: map<L, seq<N>>, l: L, n: N, i: nat, k': Links<N, L>, c': map<L, seq<N>>)
    requires WellLinked(k, c)
    requires l in c && Node(n) in k.owner && k.owner[Node(n)].None? && i <= |c[l]|
    requires k' == AttachLinks(k, l, n, RefAt(l, c[l], i - 1), RefAt(l, c[l], i))
    requires c' == c[l := c[l][..i] + [n] + c[l][i..]]
    ensures WellLinked(k', c')
  {
    AttachKeys(k, c, l, n, i);
    AttachChains(k, c, l, n, i);
    AttachOwnersAll(k, c, l, n, i);
    AttachUnlinkedAll(k, c, l, n, i);
  }

  /** `list_attach` only rewrites slots that are already initialised. */
  lemma AttachKeys<N, L>(k: Links<N, L>, c: map<L, seq<N>>, l: L, n: N, i: nat)
    requires WellLinked(k, c)
    requires l in c && Node(n) in k.owner && k.owner[Node(n)].None? && i <= |c[l]|
    ensures var k' := AttachLinks(k, l, n, RefAt(l, c[l], i - 1), RefAt(l, c[l], i));
      forall r :: (r in k'.owner <==> r in k.owner) && (r in k'.prev <==> r in k.prev) && (r in k'.next <==> r in k.next)
  {
    var s := c[l];
    assert Chain(k, l, s);
    if 0 < i { assert NodeAt(k, l, s, i - 1); }
    if i < |s| { assert NodeAt(k, l, s, i); }
  }

  /** After `list_attach` every list, the changed one included, is a
      well-formed circle. */
  lemma AttachChains<N, L>(k: Links<N, L>, c: map<L, seq<N>>, l: L, n: N, i: nat)
    requires WellLinked(k, c)
    requires l in c && Node(n) in k.owner && k.owner[Node(n)].None? && i <= |c[l]|
    ensures var k' := AttachLinks(k, l, n, RefAt(l, c[l], i - 1), RefAt(l, c[l], i));
      var c' := c[l := c[l][..i] + [n] + c[l][i..]];
      forall l2 :: l2 in c' ==> Chain(k', l2, c'[l2])
  {
    var k' := AttachLinks(k, l, n, RefAt(l, c[l], i - 1), RefAt(l, c[l], i));
    var c' := c[l := c[l][..i] + [n] + c[l][i..]];
    assert Chain(k, l, c[l]);
    AttachSelf(k, l, c[l], n, i);
    forall l2 | l2 in c'
      ensures Chain(k', l2, c'[l2])
    {
      if l2 != l {
        AttachOthers(k, c, l, n, i, l2);
      }
    }
  }

  /** After `list_attach` every linked node is listed by its owner. */
  lemma AttachOwnersAll<N, L>(k: Links<N, L>, c: map<L, seq<N>>, l: L, n: N, i: nat)
    requires WellLinked(k, c)
    requires l in c && Node(n) in k.owner && k.owner[Node(n)].None? && i <= |c[l]|
    ensures var k' := AttachLinks(k, l, n, RefAt(l, c[l], i - 1), RefAt(l, c[l], i));
      var c' := c[l := c[l][..i] + [n] + c[l][i..]];
      forall r :: r in k'.owner && r.Node? && k'.owner[r].Some? ==>
        k'.owner[r].value in c' && r.node in c'[k'.owner[r].value]
  {
    var k' := AttachLinks(k, l, n, RefAt(l, c[l], i - 1), RefAt(l, c[l], i));
    var c' := c[l := c[l][..i] + [n] + c[l][i..]];
    forall r | r in k'.owner && r.Node? && k'.owner[r].Some?
      ensures k'.owner[r].value in c' && r.node in c'[k'.owner[r].value]
    {
      if r == Node(n) {
        assert c'[l][i] == n;
      } else {
        AttachOwners(k, c, l, n, i, r);
      }
    }
  }

  /** After `list_attach` every unlinked node has NULL links. */
  lemma AttachUnlinkedAll<N, L>(k: Links<N, L>, c: map<L, seq<N>>, l: L, n: N, i: nat)
    requires WellLinked(k, c)
    requires l in c && Node(n) in k.owner && k.owner[Node(n)].None? && i <= |c[l]|
    ensures var k' := AttachLinks(k, l, n, RefAt(l, c[l], i - 1), RefAt(l, c[l], i));
      forall r :: r in k'.owner && r.Node? && k'.owner[r].None? ==> k'.prev[r] == Null && k'.next[r] == Null
  {
    var k' := AttachLinks(k, l, n, RefAt(l, c[l], i - 1), RefAt(l, c[l], i));
    forall r | r in k'.owner && r.Node? && k'.owner[r].None?
      ensures k'.prev[r] == Null && k'.next[r] == Null
    {
      AttachUnlinked(k, c, l, n, i, r);
    }
  }

  /** After attaching, every other unlinked node still has NULL links. */
  lemma AttachUnlinked<N, L>(k: Links<N, L>, c: map<L, seq<N>>, l: L, n: N, i: nat, r: Ref<N, L>)
    requires WellLinked(k, c)
    requires l in c && Node(n) in k.owner && k.owner[Node(n)].None? && i <= |c[l]|
    requires r in k.owner && r.Node? && r != Node(n) && k.owner[r].None?
    ensures var k' := AttachLinks(k, l, n, RefAt(l, c[l], i - 1), RefAt(l, c[l], i));
      k'.prev[r] == Null && k'.next[r] == Null
  {
    var s := c[l];
    assert Chain(k, l, s);
    if 0 < i { assert NodeAt(k, l, s, i - 1); }
    if i < |s| { assert NodeAt(k, l, s, i); }
  }

  /** Removing from `l` leaves every other list's chain alone. */
  lemma DetachOthers<N, L>(k: Links<N, L>, c: map<L, seq<N>>, l: L, i: nat, l2: L)
    requires WellLinked(k, c) && l in c && i < |c[l]| && l2 in c && l2 != l
    ensures Chain(k, l, c[l])
    ensures Chain(DetachLinks(k, l, c[l][i], RefAt(l, c[l], i - 1), RefAt(l, c[l], i + 1)), l2, c[l2])
  {
    var s, u := c[l], c[l2];
    var k' := DetachLinks(k, l, s[i], RefAt(l, s, i - 1), RefAt(l, s, i + 1));
    assert Chain(k, l, s) && Chain(k, l2, u) && NodeAt(k, l, s, i);
    forall j | 0 <= j < |u|
      ensures Same(k, k', Node(u[j]))
    {
      assert NodeAt(k, l2, u, j);
      if 0 <= i - 1 { assert NodeAt(k, l, s, i - 1); }
      if i + 1 < |s| { assert NodeAt(k, l, s, i + 1); }
    }
    ChainFrame(k, k', l2, u);
  }

  /** What `list_remove` reads of a linked node: its owner lists it at
      position `FirstIndex`, its neighbours sit on either side, and the
      owner's size is positive. */
  lemma DetachPre<N, L>(k: Links<N, L>, c: map<L, seq<N>>, n: N)
    requires WellLinked(k, c) && Node(n) in k.owner && k.owner[Node(n)].Some?
    ensures var l := k.owner[Node(n)].value;
      && l in c && n in c[l] && l in k.size && k.size[l] == |c[l]| > 0
      && var i := FirstIndex(c[l], n);
      && k.prev[Node(n)] == RefAt(l, c[l], i - 1)
      && k.next[Node(n)] == RefAt(l, c[l], i + 1)
      && Without(c[l], n) == c[l][..i] + c[l][i + 1..]
  {
    var l := k.owner[Node(n)].value;
    var s := c[l];
    var i := FirstIndex(s, n);
    assert Chain(k, l, s) && NodeAt(k, l, s, i);
    WithoutAt(s, i);
  }

  /** `list_remove` of a linked node keeps every list well formed, takes
      it out of the list that owns it and leaves it unlinked. */
  lemma DetachOk<N, L>(k: Links<N, L>, c: map<L, seq<N>>, n: N, k': Links<N, L>, c': map<L, seq<N>>)
    requires WellLinked(k, c) && Node(n) in k.owner && k.owner[Node(n)].Some?
    requires var l := k.owner[Node(n)].value;
      && l in k.size && k.size[l] > 0 && Node(n) in k.prev && Node(n) in k.next && l in c
      && k' == DetachLinks(k, l, n, k.prev[Node(n)], k.next[Node(n)])
      && c' == c[l := Without(c[l], n)]
    ensures WellLinked(k', c')
  {
    DetachPre(k, c, n);
    var l := k.owner[Node(n)].value;
    DetachAt(k, c, l, FirstIndex(c[l], n), k', c');
  }

  /** `list_remove` of the node at position `i` of `l` keeps every list
      well formed, cuts the node out and leaves it unlinked. */
  lemma DetachAt<N, L>(k: Links<N, L>, c: map<L, seq<N>>, l: L, i: nat, k': Links<N, L>, c': map<L, seq<N>>)
    requires WellLinked(k, c) && l in c && i < |c[l]| && l in k.size && k.size[l] == |c[l]|
    requires k' == DetachLinks(k, l, c[l][i], RefAt(l, c[l], i - 1), RefAt(l, c[l], i + 1))
    requires c' == c[l := c[l][..i] + c[l][i + 1..]]
    ensures WellLinked(k', c')
  {
    DetachKeys(k, c, l, i);
    DetachChains(k, c, l, i);
    DetachOwnersAll(k, c, l, i);
    DetachUnlinkedAll(k, c, l, i);
  }

  /** `list_remove` only rewrites slots that are already initialised. */
  lemma DetachKeys<N, L>(k: Links<N, L>, c: map<L, seq<N>>, l: L, i: nat)
    requires WellLinked(k, c) && l in c && i < |c[l]| && l in k.size && k.size[l] == |c[l]|
    ensures var k' := DetachLinks(k, l, c[l][i], RefAt(l, c[l], i - 1), RefAt(l, c[l], i + 1));
      forall r :: (r in k'.owner <==> r in k.owner) && (r in k'.prev <==> r in k.prev) && (r in k'.next <==> r in k.next)
  {
    var s := c[l];
    assert Chain(k, l, s) && NodeAt(k, l, s, i);
    if 0 < i { assert NodeAt(k, l, s, i - 1); }
    if i + 1 < |s| { assert NodeAt(k, l, s, i + 1); }
  }

  /** After `list_remove` every list, the changed one included, is a
      well-formed circle. */
  lemma DetachChains<N, L>(k: Links<N, L>, c: map<L, seq<N>>, l: L, i: nat)
    requires WellLinked(k, c) && l in c && i < |c[l]| && l in k.size && k.size[l] == |c[l]|
    ensures var k' := DetachLinks(k, l, c[l][i], RefAt(l, c[l], i - 1), RefAt(l, c[l], i + 1));
      var c' := c[l := c[l][..i] + c[l][i + 1..]];
      forall l2 :: l2 in c' ==> Chain(k', l2, c'[l2])
  {
    var k' := DetachLinks(k, l, c[l][i], RefAt(l, c[l], i - 1), RefAt(l, c[l], i + 1));
    var c' := c[l := c[l][..i] + c[l][i + 1..]];
    assert Chain(k, l, c[l]);
    DetachSelf(k, l, c[l], i);
    forall l2 | l2 in c'
      ensures Chain(k', l2, c'[l2])
    {
      if l2 != l {
        DetachOthers(k, c, l, i, l2);
      }
    }
  }

  /** After `list_remove` every linked node is listed by its owner. */
  lemma DetachOwnersAll<N, L>(k: Links<N, L>, c: map<L, seq<N>>, l: L, i: nat)
    requires WellLinked(k, c) && l in c && i < |c[l]| && l in k.size && k.size[l] == |c[l]|
    ensures var k' := DetachLinks(k, l, c[l][i], RefAt(l, c[l], i - 1), RefAt(l, c[l], i + 1));
      var c' := c[l := c[l][..i] + c[l][i + 1..]];
      forall r :: r in k'.owner && r.Node? && k'.owner[r].Some? ==>
        k'.owner[r].value in c' && r.node in c'[k'.owner[r].value]
  {
    var s := c[l];
    var k' := DetachLinks(k, l, s[i], RefAt(l, s, i - 1), RefAt(l, s, i + 1));
    var c' := c[l := s[..i] + s[i + 1..]];
    forall r | r in k'.owner && r.Node? && k'.owner[r].Some?
      ensures k'.owner[r].value in c' && r.node in c'[k'.owner[r].value]
    {
      if k.owner[r].value == l {
        var j :| 0 <= j < |s| && s[j] == r.node;
        assert j != i;
        assert c'[l][if j < i then j else j - 1] == r.node;
      }
    }
  }

  /** After `list_remove` every unlinked node, the removed one included,
      has NULL links. */
  lemma DetachUnlinkedAll<N, L>(k: Links<N, L>, c: map<L, seq<N>>, l: L, i: nat)
    requires WellLinked(k, c) && l in c && i < |c[l]| && l in k.size && k.size[l] == |c[l]|
    ensures var k' := DetachLinks(k, l, c[l][i], RefAt(l, c[l], i - 1), RefAt(l, c[l], i + 1));
      forall r :: r in k'.owner && r.Node? && k'.owner[r].None? ==> k'.prev[r] == Null && k'.next[r] == Null
  {
    var s := c[l];
    var k' := DetachLinks(k, l, s[i], RefAt(l, s, i - 1), RefAt(l, s, i + 1));
    assert Chain(k, l, s);
    if 0 < i { assert NodeAt(k, l, s, i - 1); }
    if i + 1 < |s| { assert NodeAt(k, l, s, i + 1); }
  }

  /** The fields after `list_init(x)`: the sentinel points at itself and
      owns nothing, the size is 0. */
  function InitLinks<N, L>(k: Links<N, L>, x: L): Links<N, L>
  {
    Links(k.prev[Sentinel(x) := Sentinel(x)], k.next[Sentinel(x) := Sentinel(x)],
          k.owner[Sentinel(x) := None], k.size[x := 0])
  }

  /** The fields after `list_node_init(n)`: all three NULL. */
  function NodeInitLinks<N, L>(k: Links<N, L>, n: N): Links<N, L>
  {
    Links(k.prev[Node(n) := Null], k.next[Node(n) := Null], k.owner[Node(n) := None], k.size)
  }

  /** `list_init` of `x` leaves every other list's chain alone. */
  lemma InitOther<N, L>(k: Links<N, L>, c: map<L, seq<N>>, x: L, l: L)
    requires WellLinked(k, c) && l in c && l != x
    ensures Chain(InitLinks(k, x), l, c[l])
  {
    var s := c[l];
    assert Chain(k, l, s);
    forall j | 0 <= j < |s|
      ensures Same(k, InitLinks(k, x), Node(s[j]))
    {
      assert NodeAt(k, l, s, j);
    }
    ChainFrame(k, InitLinks(k, x), l, s);
  }

  /** `list_init` of an empty or fresh list keeps every list well formed
      and makes it empty. */
  lemma InitOk<N, L>(k: Links<N, L>, c: map<L, seq<N>>, x: L, k': Links<N, L>, c': map<L, seq<N>>)
    requires WellLinked(k, c) && (x !in c || c[x] == [])
    requires k' == InitLinks(k, x) && c' == c[x := []]
    ensures WellLinked(k', c')
  {
    InitChains(k, c, x, k', c');
    InitOwners(k, c, x, k', c');
  }

  /** After `list_init` of `x` every list is a well-formed circle, `x`
      an empty one. */
  lemma InitChains<N, L>(k: Links<N, L>, c: map<L, seq<N>>, x: L, k': Links<N, L>, c': map<L, seq<N>>)
    requires WellLinked(k, c) && k' == InitLinks(k, x) && c' == c[x := []]
    ensures forall l :: l in c' ==> Chain(k', l, c'[l])
  {
    forall l | l in c'
      ensures Chain(k', l, c'[l])
    {
      if l != x {
        InitOther(k, c, x, l);
      } else {
        assert Linked(k', Sentinel(x), None, Sentinel(x), Sentinel(x));
      }
    }
  }

  /** After `list_init` of an empty or fresh list every linked node is
      still listed by its owner. */
  lemma InitOwners<N, L>(k: Links<N, L>, c: map<L, seq<N>>, x: L, k': Links<N, L>, c': map<L, seq<N>>)
    requires WellLinked(k, c) && (x !in c || c[x] == [])
    requires k' == InitLinks(k, x) && c' == c[x := []]
    ensures forall r :: r in k'.owner && r.Node? && k'.owner[r].Some? ==>
      k'.owner[r].value in c' && r.node in c'[k'.owner[r].value]
  {
    forall r | r in k'.owner && r.Node? && k'.owner[r].Some?
      ensures k'.owner[r].value in c' && r.node in c'[k'.owner[r].value]
    {
      assert k.owner[r] == k'.owner[r];
      assert k.owner[r].value != x;
    }
  }

  /** `list_node_init` of `n` leaves every list's chain alone. */
  lemma NodeInitOther<N, L>(k: Links<N, L>, c: map<L, seq<N>>, n: N, l: L)
    requires WellLinked(k, c) && (Node(n) !in k.owner || k.owner[Node(n)].None?) && l in c
    ensures Chain(NodeInitLinks(k, n), l, c[l])
  {
    var s := c[l];
    assert Chain(k, l, s);
    forall j | 0 <= j < |s|
      ensures Same(k, NodeInitLinks(k, n), Node(s[j]))
    {
      assert NodeAt(k, l, s, j);
    }
    ChainFrame(k, NodeInitLinks(k, n), l, s);
  }

  /** `list_node_init` of an unlinked node keeps every list well formed. */
  lemma NodeInitOk<N, L>(k: Links<N, L>, c: map<L, seq<N>>, n: N, k': Links<N, L>)
    requires WellLinked(k, c) && (Node(n) !in k.owner || k.owner[Node(n)].None?)
    requires k' == NodeInitLinks(k, n)
    ensures WellLinked(k', c)
  {
    forall l | l in c
      ensures Chain(k', l, c[l])
    {
      NodeInitOther(k, c, n, l);
    }
  }

  /** The node reached from `r` by following `next` `m` times. */
  ghost function Walk<N, L>(k: Links<N, L>, r: Ref<N, L>, m: nat): Ref<N, L>
  {
    if m == 0 then r
    else
      var r' := Walk(k, r, m - 1);
      if r' in k.next then k.next[r'] else Null
  }

  /** The same, following `prev`. */
  ghost function WalkBack<N, L>(k: Links<N, L>, r: Ref<N, L>, m: nat): Ref<N, L>
  {
    if m == 0 then r
    else
      var r' := WalkBack(k, r, m - 1);
      if r' in k.prev then k.prev[r'] else Null
  }

  /** `LIST_FOR_EACH`: walking `next` from the sentinel visits the nodes
      in order and is back at the sentinel after |s| + 1 steps. */
  lemma {:induction false} WalkVisitsInOrder<N, L>(k: Links<N, L>, l: L, s: seq<N>, m: nat)
    requires Chain(k, l, s) && m <= |s| + 1
    ensures Walk(k, Sentinel(l), m) == RefAt(l, s, m - 1)
  {
    if m > 0 {
      WalkVisitsInOrder(k, l, s, m - 1);
      if m >= 2 {
        assert NodeAt(k, l, s, m - 2);
      }
    }
  }

  /** Walking `prev` from the sentinel visits the nodes in reverse. */
  lemma {:induction false} WalkBackVisitsReversed<N, L>(k: Links<N, L>, l: L, s: seq<N>, m: nat)
    requires Chain(k, l, s) && m <= |s| + 1
    ensures WalkBack(k, Sentinel(l), m) == RefAt(l, s, |s| - m)
  {
    if m > 0 {
      WalkBackVisitsReversed(k, l, s, m - 1);
      if m >= 2 {
        assert NodeAt(k, l, s, |s| - m + 1);
      }
    }
  }

  /** `c` after `n` leaves the list `o` that owns it, if any. */
  ghost function Detached<N, L>(c: map<L, seq<N>>, o: Option<L>, n: N): map<L, seq<N>>
  {
    if o.Some? && o.value in c then c[o.value := Without(c[o.value], n)] else c
  }

  class LinkedLists<N(==), L(==)> {
    /** `prev`, `next` and `owner` of every initialised node and sentinel. */
    var prev: map<Ref<N, L>, Ref<N, L>>
    var next: map<Ref<N, L>, Ref<N, L>>
    var owner: map<Ref<N, L>, Option<L>>
    /** `size` of every initialised list. */
    var size: map<L, nat>
    /** The nodes of each list, from the sentinel's `next` onward. */
    ghost var Contents: map<L, seq<N>>

    ghost function State(): Links<N, L>
      reads this
    {
      Links(prev, next, owner, size)
    }

    ghost predicate Valid()
      reads this
    {
      WellLinked(State(), Contents)
    }

    constructor ()
      ensures Valid() && Contents == map[] && owner == map[]
    {
      prev, next, owner, size := map[], map[], map[], map[];
      Contents := map[];
    }

    /** `list_init`: the sentinel points at itself, owns nothing and the
        size is 0; NULL is ignored.  A list that still holds nodes must not
        be re-initialised (its nodes would keep pointing into it). */
    method Init(l: Option<L>)
      requires Valid()
      requires l.Some? ==> l.value !in Contents || Contents[l.value] == []
      modifies this
      ensures Valid()
      ensures l.None? ==> Contents == old(Contents) && State() == old(State())
      ensures l.Some? ==> Contents == old(Contents)[l.value := []]
      ensures l.Some? ==> var x := Sentinel(l.value);
        && prev == old(prev)[x := x] && next == old(next)[x := x]
        && owner == old(owner)[x := None] && size == old(size)[l.value := 0]
    {
      if l.None? {
        return;
      }
      ghost var k, c := State(), Contents;
      var k' := InitLinks(Links(prev, next, owner, size), l.value);
      prev, next, owner, size := k'.prev, k'.next, k'.owner, k'.size;
      Contents := c[l.value := []];
      InitOk(k, c, l.value, State(), Contents);
    }

    /** `list_node_init`: all three fields NULL; NULL is ignored.  Only for
        a node that is not linked (its neighbours would keep pointing at it). */
    method NodeInit(n: Option<N>)
      requires Valid()
      requires n.Some? ==> Node(n.value) !in owner || owner[Node(n.value)].None?
      modifies this
      ensures Valid() && Contents == old(Contents)
      ensures n.None? ==> State() == old(State())
      ensures n.Some? ==> var x := Node(n.value);
        && prev == old(prev)[x := Null] && next == old(next)[x := Null]
        && owner == old(owner)[x := None] && size == old(size)
    {
      if n.None? {
        return;
      }
      ghost var k := State();
      var k' := NodeInitLinks(Links(prev, next, owner, size), n.value);
      prev, next, owner, size := k'.prev, k'.next, k'.owner, k'.size;
      NodeInitOk(k, Contents, n.value, State());
    }

    /** `list_is_empty`: NULL or size 0. */
    function IsEmpty(l: Option<L>): (r: bool)
      reads this
      requires Valid() && (l.Some? ==> l.value in Contents)
      ensures r <==> l.None? || Contents[l.value] == []
    {
      l.None? || size[l.value] == 0
    }

    /** `list_size`: 0 for NULL, else the number of linked nodes. */
    function Size(l: Option<L>): (r: nat)
      reads this
      requires Valid() && (l.Some? ==> l.value in Contents)
      ensures r == if l.None? then 0 else |Contents[l.value]|
    {
      if l.None? then 0 else size[l.value]
    }

    /** `list_peek_front`: the node after the sentinel, NULL when empty. */
    function PeekFront(l: Option<L>): (r: Option<N>)
      reads this
      requires Valid() && (l.Some? ==> l.value in Contents)
      ensures r == if l.None? || Contents[l.value] == [] then None else Some(Contents[l.value][0])
    {
      if IsEmpty(l) then None
      else
        assert Chain(State(), l.value, Contents[l.value]);
        Some(next[Sentinel(l.value)].node)
    }

    /** `list_peek_back`: the node before the sentinel, NULL when empty. */
    function PeekBack(l: Option<L>): (r: Option<N>)
      reads this
      requires Valid() && (l.Some? ==> l.value in Contents)
      ensures r == if l.None? || Contents[l.value] == [] then None
                   else Some(Contents[l.value][|Contents[l.value]| - 1])
    {
      if IsEmpty(l) then None
      else
        assert Chain(State(), l.value, Contents[l.value]);
        Some(prev[Sentinel(l.value)].node)
    }

    /** The sentinel of `l` points at the first and the last node. */
    lemma SentinelLinks(l: L)
      requires Valid() && l in Contents
      ensures Sentinel(l) in next && next[Sentinel(l)] == RefAt(l, Contents[l], 0)
      ensures Sentinel(l) in prev && prev[Sentinel(l)] == RefAt(l, Contents[l], |Contents[l]| - 1)
    {
      assert Chain(State(), l, Contents[l]);
    }

    /** The owner field names the one list that holds the node. */
    lemma OwnerExact(n: N)
      requires Valid() && Node(n) in owner
      ensures forall l :: l in Contents ==> (n in Contents[l] <==> owner[Node(n)] == Some(l))
    {
      forall l | l in Contents
        ensures n in Contents[l] <==> owner[Node(n)] == Some(l)
      {
        if n in Contents[l] {
          OwnedOnly(State(), Contents, n, l);
        }
      }
    }

    /** Every node of a list is initialised and owned by that list. */
    lemma Owned(l: L, i: nat)
      requires Valid() && l in Contents && i < |Contents[l]|
      ensures Node(Contents[l][i]) in owner && owner[Node(Contents[l][i])] == Some(l)
    {
      assert Chain(State(), l, Contents[l]) && NodeAt(State(), l, Contents[l], i);
    }

    /** A node's owner holds it. */
    lemma OwnerHolds(n: N)
      requires Valid() && Node(n) in owner && owner[Node(n)].Some?
      ensures owner[Node(n)].value in Contents && n in Contents[owner[Node(n)].value]
    {
    }

    /** A list that is empty, or was never initialised, owns no node. */
    lemma OwnsNone(l: L)
      requires Valid() && (l !in Contents || Contents[l] == [])
      ensures forall r :: r in owner && r.Node? ==> owner[r] != Some(l)
    {
    }

    /** `list_node_is_linked`: the node is in some list. */
    function IsLinked(n: Option<N>): (r: bool)
      reads this
      requires Valid() && (n.Some? ==> Node(n.value) in owner)
      ensures r <==> n.Some? && exists l :: l in Contents && n.value in Contents[l]
    {
      if n.None? then false
      else
        OwnerExact(n.value);
        owner[Node(n.value)].Some?
    }

    /** `list_node_owner`: the list the node is in, NULL if none. */
    function OwnerOf(n: Option<N>): (r: Option<L>)
      reads this
      requires Valid() && (n.Some? ==> Node(n.value) in owner)
      ensures n.None? ==> r.None?
      ensures n.Some? ==> forall l :: l in Contents ==> (n.value in Contents[l] <==> r == Some(l))
      ensures r.Some? ==> r.value in Contents
    {
      if n.None? then None
      else
        OwnerExact(n.value);
        owner[Node(n.value)]
    }

    /** `list_attach`: links the unlinked node `n` between `p` and `q`,
        which are adjacent in `l` around position `i`. */
    method Attach(l: L, n: N, p: Ref<N, L>, q: Ref<N, L>, ghost i: nat)
      requires Valid()
      requires l in Contents && Node(n) in owner && owner[Node(n)].None?
      requires i <= |Contents[l]|
      requires p == RefAt(l, Contents[l], i - 1) && q == RefAt(l, Contents[l], i)
      modifies this
      ensures Valid()
      ensures Contents == old(Contents)[l := old(Contents)[l][..i] + [n] + old(Contents)[l][i..]]
      ensures owner == old(owner)[Node(n) := Some(l)]
    {
      ghost var k, c := State(), Contents;
      ghost var c' := c[l := c[l][..i] + [n] + c[l][i..]];
      var k' := AttachLinks(Links(prev, next, owner, size), l, n, p, q);
      prev, next, owner, size := k'.prev, k'.next, k'.owner, k'.size;
      Contents := c';
      AttachOk(k, c, l, n, i, State(), c');
    }

    /** `list_remove`: unlinks `n` from the list that owns it and clears
        its fields; NULL or an unlinked node is left alone. */
    method Remove(n: Option<N>)
      requires Valid() && (n.Some? ==> Node(n.value) in owner)
      modifies this
      ensures Valid()
      ensures n.None? || old(owner[Node(n.value)]).None? ==>
                Contents == old(Contents) && State() == old(State())
      ensures n.Some? ==> Contents == Detached(old(Contents), old(owner[Node(n.value)]), n.value)
      ensures n.Some? ==> owner == old(owner)[Node(n.value) := None]
      ensures n.Some? ==> prev[Node(n.value)] == Null && next[Node(n.value)] == Null
    {
      if n.None? || owner[Node(n.value)].None? {
        return;
      }
      var x := Node(n.value);
      var l := owner[x].value;
      ghost var k, c := State(), Contents;
      DetachPre(k, c, n.value);
      ghost var c' := c[l := Without(c[l], n.value)];
      var k' := DetachLinks(Links(prev, next, owner, size), l, n.value, prev[x], next[x]);
      prev, next, owner, size := k'.prev, k'.next, k'.owner, k'.size;
      Contents := c';
      DetachOk(k, c, n.value, State(), c');
    }

    /** `list_push_front`: takes `n` out of whatever list holds it, then
        links it right after the sentinel of `l`; NULL is ignored. */
    method PushFront(l: Option<L>, n: Option<N>)
      requires Valid()
      requires l.Some? ==> l.value in Contents
      requires n.Some? ==> Node(n.value) in owner
      modifies this
      ensures Valid()
      ensures l.None? || n.None? ==> Contents == old(Contents) && State() == old(State())
      ensures l.Some? && n.Some? ==>
        var c := Detached(old(Contents), old(owner[Node(n.value)]), n.value);
        Contents == c[l.value := [n.value] + c[l.value]]
      ensures l.Some? && n.Some? && old(owner[Node(n.value)]).None? ==>
        Contents == old(Contents)[l.value := [n.value] + old(Contents)[l.value]]
      ensures l.Some? && n.Some? ==> owner == old(owner)[Node(n.value) := Some(l.value)]
    {
      if l.None? || n.None? {
        return;
      }
      ghost var c := Detached(Contents, owner[Node(n.value)], n.value);
      if owner[Node(n.value)].Some? {
        Remove(n);
      }
      assert Contents == c;
      SentinelLinks(l.value);
      Attach(l.value, n.value, Sentinel(l.value), next[Sentinel(l.value)], 0);
      InsertAtEnds(c[l.value], n.value);
      UpdateTwice(old(owner), Node(n.value), None, Some(l.value));
    }

    /** `list_push_back`: takes `n` out of whatever list holds it, then
        links it right before the sentinel of `l`; NULL is ignored. */
    method PushBack(l: Option<L>, n: Option<N>)
      requires Valid()
      requires l.Some? ==> l.value in Contents
      requires n.Some? ==> Node(n.value) in owner
      modifies this
      ensures Valid()
      ensures l.None? || n.None? ==> Contents == old(Contents) && State() == old(State())
      ensures l.Some? && n.Some? ==>
        var c := Detached(old(Contents), old(owner[Node(n.value)]), n.value);
        Contents == c[l.value := c[l.value] + [n.value]]
      ensures l.Some? && n.Some? && old(owner[Node(n.value)]).None? ==>
        Contents == old(Contents)[l.value := old(Contents)[l.value] + [n.value]]
      ensures l.Some? && n.Some? ==> owner == old(owner)[Node(n.value) := Some(l.value)]
    {
      if l.None? || n.None? {
        return;
      }
      ghost var c := Detached(Contents, owner[Node(n.value)], n.value);
      if owner[Node(n.value)].Some? {
        Remove(n);
      }
      assert Contents == c;
      ghost var s := Contents[l.value];
      SentinelLinks(l.value);
      Attach(l.value, n.value, prev[Sentinel(l.value)], Sentinel(l.value), |s|);
      InsertAtEnds(s, n.value);
      UpdateTwice(old(owner), Node(n.value), None, Some(l.value));
    }

    /** `list_pop_front`: removes and returns the first node, NULL when
        the list is NULL or empty. */
    method PopFront(l: Option<L>) returns (r: Option<N>)
      requires Valid() && (l.Some? ==> l.value in Contents)
      modifies this
      ensures Valid()
      ensures r == old(PeekFront(l))
      ensures r.None? ==> Contents == old(Contents) && State() == old(State())
      ensures r.Some? ==> Contents == old(Contents)[l.value := old(Contents)[l.value][1..]]
      ensures r.Some? ==> owner == old(owner)[Node(r.value) := None]
    {
      r := PeekFront(l);
      if r.Some? {
        ghost var s := Contents[l.value];
        assert Chain(State(), l.value, s) && NodeAt(State(), l.value, s, 0);
        WithoutAt(s, 0);
        Remove(r);
      }
    }

    /** `list_pop_back`: removes and returns the last node, NULL when the
        list is NULL or empty. */
    method PopBack(l: Option<L>) returns (r: Option<N>)
      requires Valid() && (l.Some? ==> l.value in Contents)
      modifies this
      ensures Valid()
      ensures r == old(PeekBack(l))
      ensures r.None? ==> Contents == old(Contents) && State() == old(State())
      ensures r.Some? ==> var s := old(Contents)[l.value];
        Contents == old(Contents)[l.value := s[..|s| - 1]]
      ensures r.Some? ==> owner == old(owner)[Node(r.value) := None]
    {
      r := PeekBack(l);
      if r.Some? {
        ghost var s := Contents[l.value];
        ghost var i := |s| - 1;
        assert Chain(State(), l.value, s) && NodeAt(State(), l.value, s, i);
        assert s[i] !in s[..i] by {
          forall j | 0 <= j < i
            ensures s[j] != s[i]
          {
            ChainDistinct(State(), l.value, s, j, i);
          }
        }
        WithoutAt(s, i);
        assert s[..i] + s[i + 1..] == s[..i];
        Remove(r);
      }
    }
  }
}
