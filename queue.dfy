/** Kernel/collections/queueADT.c: the opaque FIFO queue, a singly-linked
    list of heap nodes with `head`, `tail` and `size`.

    Nodes are named by ids: the queue object holds the two fields of every
    node it has allocated, `next` and `data`, keyed by node id, so that
    `mem_alloc` of a node becomes the choice of an id that is not in use
    and `mem_free` removes the id.  The ghost `Ids` is the chain from
    `head`, and `Contents` the elements stored along it.  A NULL
    `queue_t *` is a null `Queue?`. */
module QueueAdt {
  import opened Common

  /** The id at position `j` of the chain, NULL past its end. */
  function IdAt(ids: seq<nat>, j: nat): (r: Option<nat>)
    ensures r.Some? <==> j < |ids|
  {
    if j < |ids| then Some(ids[j]) else None
  }

  /** The node at position `i` stores `contents[i]` and points at the next one. */
  ghost predicate NodeAt<T>(next: map<nat, Option<nat>>, data: map<nat, T>,
                            ids: seq<nat>, contents: seq<T>, i: nat)
    requires i < |ids| && i < |contents|
  {
    ids[i] in next && ids[i] in data && next[ids[i]] == IdAt(ids, i + 1) && data[ids[i]] == contents[i]
  }

  class Queue<T> {
    var head: Option<nat>
    var tail: Option<nat>
    var size: nat
    /** `next` and `data` of every node the queue has allocated. */
    var next: map<nat, Option<nat>>
    var data: map<nat, T>
    /** The node ids from `head` to `tail`, and what they store. */
    ghost var Ids: seq<nat>
    ghost var Contents: seq<T>

    ghost predicate Valid()
      reads this
    {
      && |Ids| == size && |Contents| == size
      && head == IdAt(Ids, 0)
      && tail == (if size == 0 then None else Some(Ids[size - 1]))
      && (forall i, j :: 0 <= i < j < |Ids| ==> Ids[i] != Ids[j])
      && (forall i {:trigger NodeAt(next, data, Ids, Contents, i)} ::
            0 <= i < size ==> NodeAt(next, data, Ids, Contents, i))
      && (forall id :: id in next ==> id in Ids)
      && (forall id :: id in data ==> id in Ids)
    }

    constructor ()
      ensures Valid() && Contents == [] && next == map[]
    {
      head, tail, size := None, None, 0;
      next, data := map[], map[];
      Ids, Contents := [], [];
    }
  }

  /** The elements of a queue; a NULL queue holds none. */
  ghost function Elements<T>(q: Queue?<T>): seq<T>
    reads q
  {
    if q == null then [] else q.Contents
  }

  /** `queue_create`: an empty queue, or NULL when the allocation of the
      queue object fails (`obtained` is what `mem_alloc` did). */
  method Create<T>(obtained: bool) returns (q: Queue?<T>)
    ensures q != null <==> obtained
    ensures q != null ==> fresh(q) && q.Valid() && q.Contents == []
    ensures q != null ==> q.head.None? && q.tail.None? && q.size == 0
  {
    if !obtained {
      return null;
    }
    q := new Queue();
  }

  /** `queue_is_empty`: NULL or size 0. */
  function IsEmpty<T>(q: Queue?<T>): (r: bool)
    reads q
    requires q != null ==> q.Valid()
    ensures r <==> Elements(q) == []
  {
    q == null || q.size == 0
  }

  /** `queue_size`: 0 for NULL, otherwise the number of stored elements. */
  function Size<T>(q: Queue?<T>): (r: nat)
    reads q
    requires q != null ==> q.Valid()
    ensures r == |Elements(q)|
  {
    if q == null then 0 else q.size
  }

  /** `queue_peek`: the head element, NULL for a NULL or empty queue. */
  function Peek<T>(q: Queue?<T>): (r: Option<T>)
    reads q
    requires q != null ==> q.Valid()
    ensures r.None? <==> Elements(q) == []
    ensures r.Some? ==> r.value == Elements(q)[0]
  {
    if q == null || q.head.None? then None
    else
      assert NodeAt(q.next, q.data, q.Ids, q.Contents, 0);
      Some(q.data[q.head.value])
  }

  /** `queue_push`: appends `x` after the tail.  `node` is the result of
      allocating the new node: an id not in use, or NULL.  A NULL queue or
      a failed allocation gives false and changes nothing. */
  method Push<T>(q: Queue?<T>, x: T, node: Option<nat>) returns (ok: bool)
    requires q != null ==> q.Valid()
    requires q != null && node.Some? ==> node.value !in q.next
    modifies q
    ensures ok <==> q != null && node.Some?
    ensures q != null ==> q.Valid()
    ensures q != null && ok ==> q.Contents == old(q.Contents) + [x] && q.tail == node
    ensures q != null && ok ==> q.next.Keys == old(q.next.Keys) + {node.value}
    ensures q != null && !ok ==>
              q.Contents == old(q.Contents) && q.next == old(q.next) && q.data == old(q.data)
              && q.head == old(q.head) && q.tail == old(q.tail) && q.size == old(q.size)
  {
    if q == null || node.None? {
      return false;
    }
    var id := node.value;
    ghost var n := q.size;
    forall i | 0 <= i < n
      ensures q.Ids[i] != id
    {
      assert NodeAt(q.next, q.data, q.Ids, q.Contents, i);
    }
    assert n > 0 ==> NodeAt(q.next, q.data, q.Ids, q.Contents, n - 1);
    var next := q.next[id := None];
    if q.tail.None? {
      q.head := Some(id);
    } else {
      next := next[q.tail.value := Some(id)];
    }
    q.next, q.data := next, q.data[id := x];
    q.tail := Some(id);
    q.size := q.size + 1;
    q.Ids, q.Contents := q.Ids + [id], q.Contents + [x];
    PushKeeps(old(q.next), old(q.data), old(q.Ids), old(q.Contents), n, id, x, q.next, q.data);
    return true;
  }

  /** After `Push` every old node still holds its element and points where
      it did, except the old tail, which now points at the new node. */
  lemma PushKeeps<T>(next0: map<nat, Option<nat>>, data0: map<nat, T>, ids0: seq<nat>, contents0: seq<T>,
                     n: nat, id: nat, x: T, next1: map<nat, Option<nat>>, data1: map<nat, T>)
    requires |ids0| == n && |contents0| == n && id !in ids0
    requires forall i, j :: 0 <= i < j < n ==> ids0[i] != ids0[j]
    requires forall i {:trigger NodeAt(next0, data0, ids0, contents0, i)} ::
               0 <= i < n ==> NodeAt(next0, data0, ids0, contents0, i)
    requires data1 == data0[id := x]
    requires next1 == (if n == 0 then next0[id := None] else next0[id := None][ids0[n - 1] := Some(id)])
    ensures forall i {:trigger NodeAt(next1, data1, ids0 + [id], contents0 + [x], i)} ::
              0 <= i <= n ==> NodeAt(next1, data1, ids0 + [id], contents0 + [x], i)
  {
    forall i | 0 <= i <= n
      ensures NodeAt(next1, data1, ids0 + [id], contents0 + [x], i)
    {
      if i < n {
        assert NodeAt(next0, data0, ids0, contents0, i);
        assert ids0[i] != id && (ids0 + [id])[i] == ids0[i];
        if i + 1 < n {
          assert (ids0 + [id])[i + 1] == ids0[i + 1];
        }
      }
    }
  }

  /** `queue_pop`: removes the head node, frees it and returns its element;
      NULL for a NULL or empty queue, which are left alone.  When the last
      node goes, `tail` is reset as well. */
  method Pop<T>(q: Queue?<T>) returns (r: Option<T>)
    requires q != null ==> q.Valid()
    modifies q
    ensures r == old(Peek(q))
    ensures q != null ==> q.Valid()
    ensures q != null && r.None? ==>
              q.Contents == old(q.Contents) && q.next == old(q.next) && q.data == old(q.data)
              && q.head == old(q.head) && q.tail == old(q.tail) && q.size == old(q.size)
    ensures q != null && r.Some? ==> q.Contents == old(q.Contents)[1..]
    ensures q != null && r.Some? ==>
              q.next == old(q.next) - {old(q.head).value} && q.data == old(q.data) - {old(q.head).value}
    ensures q != null && r.Some? && q.size == 0 ==> q.head.None? && q.tail.None?
  {
    if q == null || q.head.None? {
      return None;
    }
    var node := q.head.value;
    assert NodeAt(q.next, q.data, q.Ids, q.Contents, 0);
    var data := q.data[node];
    q.head := q.next[node];
    if q.head.None? {
      q.tail := None;
    }
    q.next, q.data := q.next - {node}, q.data - {node};
    q.size := q.size - 1;
    q.Ids, q.Contents := q.Ids[1..], q.Contents[1..];
    PopKeeps(old(q.next), old(q.data), old(q.Ids), old(q.Contents));
    return Some(data);
  }

  /** Freeing the head node leaves every later node as it was. */
  lemma PopKeeps<T>(next0: map<nat, Option<nat>>, data0: map<nat, T>, ids0: seq<nat>, contents0: seq<T>)
    requires 0 < |ids0| && |contents0| == |ids0|
    requires forall i, j :: 0 <= i < j < |ids0| ==> ids0[i] != ids0[j]
    requires forall i {:trigger NodeAt(next0, data0, ids0, contents0, i)} ::
               0 <= i < |ids0| ==> NodeAt(next0, data0, ids0, contents0, i)
    requires forall id :: id in next0 ==> id in ids0
    requires forall id :: id in data0 ==> id in ids0
    ensures forall i {:trigger NodeAt(next0 - {ids0[0]}, data0 - {ids0[0]}, ids0[1..], contents0[1..], i)} ::
              0 <= i < |ids0| - 1 ==> NodeAt(next0 - {ids0[0]}, data0 - {ids0[0]}, ids0[1..], contents0[1..], i)
    ensures forall id :: id in next0 - {ids0[0]} ==> id in ids0[1..]
    ensures forall id :: id in data0 - {ids0[0]} ==> id in ids0[1..]
  {
    var x := ids0[0];
    forall i | 0 <= i < |ids0| - 1
      ensures NodeAt(next0 - {x}, data0 - {x}, ids0[1..], contents0[1..], i)
    {
      assert NodeAt(next0, data0, ids0, contents0, i + 1);
      assert ids0[1..][i] == ids0[i + 1] != x;
    }
    forall id | id in next0 - {x} || id in data0 - {x}
      ensures id in ids0[1..]
    {
      var j :| 0 <= j < |ids0| && ids0[j] == id;
      assert ids0[1..][j - 1] == id;
    }
  }

  /** `queue_clear`: frees every node from head to tail and leaves the
      queue empty (the freed node memory is collected in locals and
      written back in one step).  `destroy` is whether the callback is non-NULL; the
      callback itself is foreign code, so the result is the sequence of
      elements it is called on, in call order. */
  method Clear<T>(q: Queue?<T>, destroy: bool) returns (destroyed: seq<T>)
    requires q != null ==> q.Valid()
    modifies q
    ensures destroyed == if destroy then old(Elements(q)) else []
    ensures q != null ==> q.Valid() && q.Contents == [] && q.next == map[] && q.data == map[]
  {
    destroyed := [];
    if q == null {
      return;
    }
    ghost var ids, contents := q.Ids, q.Contents;
    var next, data := q.next, q.data;
    var current := q.head;
    ghost var i := 0;
    while current.Some?
      invariant 0 <= i <= |ids| && current == IdAt(ids, i)
      invariant forall j {:trigger NodeAt(next, data, ids, contents, j)} ::
                  i <= j < |ids| ==> NodeAt(next, data, ids, contents, j)
      invariant forall id :: id in next ==> id in ids[i..]
      invariant forall id :: id in data ==> id in ids[i..]
      invariant destroyed == if destroy then contents[..i] else []
      decreases |ids| - i
    {
      var node := current.value;
      assert NodeAt(next, data, ids, contents, i);
      var following := next[node];
      assert contents[..i + 1] == contents[..i] + [data[node]];
      if destroy {
        destroyed := destroyed + [data[node]];
      }
      ClearStep(next, data, ids, contents, i);
      next, data := next - {node}, data - {node};
      current := following;
      i := i + 1;
    }
    assert i == |ids| && ids[i..] == [] && contents[..i] == contents;
    assert next == map[] && data == map[];
    q.next, q.data := next, data;
    q.head, q.tail, q.size := None, None, 0;
    q.Ids, q.Contents := [], [];
  }

  /** Freeing node `i` keeps the nodes after it and the footprint bound. */
  lemma ClearStep<T>(next: map<nat, Option<nat>>, data: map<nat, T>, ids: seq<nat>, contents: seq<T>, i: nat)
    requires i < |ids| == |contents|
    requires forall a, b :: 0 <= a < b < |ids| ==> ids[a] != ids[b]
    requires forall j {:trigger NodeAt(next, data, ids, contents, j)} ::
               i <= j < |ids| ==> NodeAt(next, data, ids, contents, j)
    requires forall id :: id in next ==> id in ids[i..]
    requires forall id :: id in data ==> id in ids[i..]
    ensures forall j {:trigger NodeAt(next - {ids[i]}, data - {ids[i]}, ids, contents, j)} ::
              i + 1 <= j < |ids| ==> NodeAt(next - {ids[i]}, data - {ids[i]}, ids, contents, j)
    ensures forall id :: id in next - {ids[i]} ==> id in ids[i + 1..]
    ensures forall id :: id in data - {ids[i]} ==> id in ids[i + 1..]
  {
    forall j | i + 1 <= j < |ids|
      ensures NodeAt(next - {ids[i]}, data - {ids[i]}, ids, contents, j)
    {
      assert NodeAt(next, data, ids, contents, j);
    }
    forall id | id in next - {ids[i]} || id in data - {ids[i]}
      ensures id in ids[i + 1..]
    {
      var j :| 0 <= j < |ids[i..]| && ids[i..][j] == id;
      assert ids[i + 1..][j - 1] == id;
    }
  }

  /** `queue_destroy`: clears the queue (NULL is ignored).  The `mem_free`
      of the queue object that follows is not modelled. */
  method Destroy<T>(q: Queue?<T>, destroy: bool) returns (destroyed: seq<T>)
    requires q != null ==> q.Valid()
    modifies q
    ensures destroyed == if destroy then old(Elements(q)) else []
    ensures q != null ==> q.next == map[] && q.data == map[]
  {
    destroyed := Clear(q, destroy);
  }

  /** `queue_iterator_t`: a read-only cursor over the nodes of one queue. */
  class QueueIterator {
    var current: Option<nat>

    constructor ()
      ensures current.None?
    {
      current := None;
    }
  }

  /** The cursor stands before element `i` of `q` (past the end when
      `i` is the length). */
  ghost predicate Cursor<T>(current: Option<nat>, q: Queue?<T>, i: nat)
    reads q
  {
    if q == null then current.None? && i == 0
    else q.Valid() && i <= |q.Ids| && current == IdAt(q.Ids, i)
  }

  /** `queue_iter`: a cursor at the head (NULL for a NULL queue). */
  method Iter<T>(q: Queue?<T>) returns (it: QueueIterator)
    requires q != null ==> q.Valid()
    ensures fresh(it) && Cursor(it.current, q, 0)
  {
    it := new QueueIterator();
    if q != null {
      it.current := q.head;
    }
  }

  /** `queue_iter_has_next`: a cursor before element `i` has a next element
      exactly when `i` is inside the queue; a NULL cursor has none. */
  function HasNext<T>(it: QueueIterator?, ghost q: Queue?<T>, ghost i: nat): (r: bool)
    reads it, q
    requires it != null ==> Cursor(it.current, q, i)
    ensures r <==> it != null && i < |Elements(q)|
  {
    it != null && it.current.Some?
  }

  /** `queue_iter_next`: yields element `i` and moves the cursor on; at the
      end (or for a NULL cursor) yields NULL.  Only the cursor is written. */
  method IterNext<T>(it: QueueIterator?, q: Queue?<T>, ghost i: nat) returns (r: Option<T>)
    requires it != null ==> Cursor(it.current, q, i)
    modifies it
    ensures it == null ==> r.None?
    ensures it != null ==> r == if i < |Elements(q)| then Some(Elements(q)[i]) else None
    ensures it != null ==> Cursor(it.current, q, if i < |Elements(q)| then i + 1 else i)
  {
    if it == null || it.current.None? {
      return None;
    }
    var node := it.current.value;
    assert NodeAt(q.next, q.data, q.Ids, q.Contents, i);
    it.current := q.next[node];
    return Some(q.data[node]);
  }

  /** FIFO: elements pushed one by one onto a new queue, each into a node
      id not in use, come back from as many pops in push order, and the
      queue is left empty. */
  method Fifo<T>(xs: seq<T>, ids: seq<nat>) returns (out: seq<T>)
    requires |ids| == |xs| && forall i, j :: 0 <= i < j < |ids| ==> ids[i] != ids[j]
    ensures out == xs
  {
    var q := new Queue<T>();
    var k := 0;
    while k < |xs|
      invariant k <= |xs| && q.Valid() && q.Contents == xs[..k]
      invariant forall id :: id in q.next <==> exists j :: 0 <= j < k && ids[j] == id
    {
      var ok := Push(q, xs[k], Some(ids[k]));
      assert xs[..k + 1] == xs[..k] + [xs[k]];
      k := k + 1;
    }
    out := [];
    while k > 0
      invariant k <= |xs| && q.Valid() && q.Contents == xs[|xs| - k..] && out == xs[..|xs| - k]
    {
      var r := Pop(q);
      out := out + [r.value];
      assert xs[..|xs| - k + 1] == xs[..|xs| - k] + [xs[|xs| - k]];
      k := k - 1;
    }
  }
}
