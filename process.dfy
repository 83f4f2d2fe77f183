/** Kernel/process/process.c: priorities, the priority-levelled process
    queue and the PCB helpers.

    PCBs and process queues are named by ids.  Every embedded `list_t` and
    `list_node_t` lives in one `LinkedLists` object: the scheduling node
    and the sibling node of PCB `p` are `Sched(p)` and `Sibling(p)`, level
    `k` of queue `q` is `Level(q, k)` and the children list of `p` is
    `Children(p)`.  `LIST_ENTRY` on a node is reading the PCB id it
    carries. */
module Process {
  import opened Common
  import opened IntrusiveList

  const PRIORITY_MIN: Byte := 0
  const PRIORITY_MAX: Byte := 7
  const PRIORITY_LEVELS: nat := PRIORITY_MAX - PRIORITY_MIN + 1
  /** `cpu_context_t` holds 20 saved 64-bit registers. */
  const CONTEXT_REGISTERS: nat := 20

  datatype ProcessState = New | Ready | Running | Blocked | Sleeping | Zombie | Exited
  datatype ForegroundMode = Background | Foreground

  /** The two list nodes embedded in PCB `pcb`. */
  datatype NodeKey = Sched(pcb: nat) | Sibling(pcb: nat)
  /** Level `k` of process queue `queue`, or the children list of PCB `parent`. */
  datatype ListKey = Level(queue: nat, k: nat) | Children(parent: nat)

  type Owners = map<Ref<NodeKey, ListKey>, Option<ListKey>>
  type Members = map<ListKey, seq<NodeKey>>

  /** A PCB without its embedded list nodes.  `name`, `entryPoint`,
      `stackBase` and `stackTop` are addresses the module only stores. */
  datatype Pcb = Pcb(
    pid: nat, ppid: nat, name: nat, entryPoint: nat, stackBase: nat, stackTop: nat,
    state: ProcessState, foreground: ForegroundMode, priority: Byte,
    ticksRemaining: nat, quantumTicks: nat, context: seq<nat>,
    parent: Option<nat>, currentQueue: Option<nat>, exitCode: nat)

  function ZeroContext(): (r: seq<nat>)
    ensures |r| == CONTEXT_REGISTERS && forall i :: 0 <= i < |r| ==> r[i] == 0
  {
    seq(CONTEXT_REGISTERS, _ => 0)
  }

  /** `normalize_priority` / `process_priority_clamp`: into [MIN, MAX],
      the identity inside it. */
  function Clamp(priority: Byte): (r: Byte)
    ensures PRIORITY_MIN <= r <= PRIORITY_MAX
    ensures PRIORITY_MIN <= priority <= PRIORITY_MAX ==> r == priority
    ensures priority > PRIORITY_MAX ==> r == PRIORITY_MAX
  {
    if priority < PRIORITY_MIN then PRIORITY_MIN
    else if priority > PRIORITY_MAX then PRIORITY_MAX
    else priority
  }

  /** `process_priority_valid`: exactly the priorities clamping leaves alone. */
  function PriorityValid(priority: Byte): (r: bool)
    ensures r <==> Clamp(priority) == priority
    ensures r <==> priority < PRIORITY_LEVELS
  {
    priority >= PRIORITY_MIN && priority <= PRIORITY_MAX
  }

  /** The number of nodes in list `l` (0 for a list never initialised). */
  ghost function Len(c: Members, l: ListKey): nat
  {
    if l in c then |c[l]| else 0
  }

  /** The number of PCBs in the first `n` levels of queue `q`. */
  ghost function Total(c: Members, q: nat, n: nat): nat
  {
    if n == 0 then 0 else Total(c, q, n - 1) + Len(c, Level(q, n - 1))
  }

  /** Replacing one list changes a queue's total by the change in that
      list's length when the list is one of the queue's levels. */
  lemma {:induction false} TotalUpdate(c: Members, l: ListKey, s: seq<NodeKey>, q: nat, n: nat)
    ensures l.Level? && l.queue == q && l.k < n ==> Total(c[l := s], q, n) + Len(c, l) == Total(c, q, n) + |s|
    ensures !(l.Level? && l.queue == q && l.k < n) ==> Total(c[l := s], q, n) == Total(c, q, n)
  {
    if n > 0 {
      TotalUpdate(c, l, s, q, n - 1);
    }
  }

  /** A queue's total is 0 exactly when all its levels are empty. */
  lemma {:induction false} TotalZero(c: Members, q: nat, n: nat)
    ensures Total(c, q, n) == 0 <==> forall k: nat :: k < n ==> Len(c, Level(q, k)) == 0
  {
    if n > 0 {
      TotalZero(c, q, n - 1);
    }
  }

  /** The lowest level at or above `k` that holds a PCB (`PRIORITY_LEVELS` if none). */
  ghost function UrgentLevel(c: Members, q: nat, k: nat): (r: nat)
    requires k <= PRIORITY_LEVELS
    ensures k <= r <= PRIORITY_LEVELS
    ensures r < PRIORITY_LEVELS ==> Len(c, Level(q, r)) > 0
    ensures forall j :: k <= j < r ==> Len(c, Level(q, j)) == 0
    decreases PRIORITY_LEVELS - k
  {
    if k == PRIORITY_LEVELS then k
    else if Len(c, Level(q, k)) > 0 then k
    else UrgentLevel(c, q, k + 1)
  }

  /** The nodes of level `k` of queue `q`, front to back. */
  ghost function LevelOf(c: Members, q: nat, k: nat): seq<NodeKey>
  {
    if Level(q, k) in c then c[Level(q, k)] else []
  }

  /** The PCB at the front of level `k` of queue `q`, if any. */
  ghost function Front(c: Members, q: nat, k: nat): (r: Option<nat>)
    ensures r.None? <==> LevelOf(c, q, k) == []
    ensures r.Some? ==> LevelOf(c, q, k)[0].pcb == r.value
  {
    var s := LevelOf(c, q, k);
    if s == [] then None else Some(s[0].pcb)
  }

  /** The PCB `process_queue_peek` and `process_queue_pop` select: the
      front of the lowest-numbered non-empty level. */
  ghost function Urgent(c: Members, q: nat): (r: Option<nat>)
    ensures r.None? <==> forall k: nat :: k < PRIORITY_LEVELS ==> LevelOf(c, q, k) == []
  {
    var k := UrgentLevel(c, q, 0);
    assert forall j: nat :: j < PRIORITY_LEVELS ==> Len(c, Level(q, j)) == |LevelOf(c, q, j)|;
    if k == PRIORITY_LEVELS then None else Front(c, q, k)
  }

  /** One step of the scan from the most urgent level: a non-empty level
      reached with nothing more urgent holds the selected PCB. */
  lemma UrgentScan(c: Members, q: nat, k: nat)
    requires k < PRIORITY_LEVELS && UrgentLevel(c, q, 0) == UrgentLevel(c, q, k)
    ensures Front(c, q, k).Some? ==> Urgent(c, q) == Front(c, q, k)
    ensures Front(c, q, k).None? ==> UrgentLevel(c, q, 0) == UrgentLevel(c, q, k + 1)
  {
  }

  /** A scan that passes every level finds nothing. */
  lemma UrgentNone(c: Members, q: nat)
    requires UrgentLevel(c, q, 0) == UrgentLevel(c, q, PRIORITY_LEVELS)
    ensures Urgent(c, q).None?
  {
  }

  /** PCB `pcb`'s scheduling node is linked in a level of the queue its
      `current_queue` names, or nowhere and `current_queue` is NULL. */
  ghost predicate SchedPlaced(pcb: Pcb, o: Option<ListKey>, counts: map<nat, nat>)
  {
    match o
    case None => pcb.currentQueue.None?
    case Some(l) => l.Level? && l.k < PRIORITY_LEVELS && pcb.currentQueue == Some(l.queue) && l.queue in counts
  }

  /** PCB `pcb`'s sibling node is linked in its parent's children list
      and `ppid` is the parent's pid, or it has no parent and `ppid` is 0. */
  ghost predicate SiblingPlaced(pcbs: map<nat, Pcb>, pcb: Pcb, o: Option<ListKey>)
  {
    match o
    case None => pcb.parent.None? && pcb.ppid == 0
    case Some(l) => l.Children? && pcb.parent == Some(l.parent) && l.parent in pcbs && pcb.ppid == pcbs[l.parent].pid
  }

  ghost predicate PcbPlaced(pcbs: map<nat, Pcb>, counts: map<nat, nat>, owner: Owners, p: nat)
  {
    && p in pcbs && Node(Sched(p)) in owner && Node(Sibling(p)) in owner
    && SchedPlaced(pcbs[p], owner[Node(Sched(p))], counts)
    && SiblingPlaced(pcbs, pcbs[p], owner[Node(Sibling(p))])
  }

  /** Which lists and nodes exist: every initialised queue has its levels,
      a level of a queue not initialised is empty, every PCB has its
      children list, and each list and node belongs to a PCB. */
  ghost predicate Shaped(pcbs: map<nat, Pcb>, counts: map<nat, nat>, owner: Owners, c: Members)
  {
    && (forall q, k: nat :: q in counts && k < PRIORITY_LEVELS ==> Level(q, k) in c)
    && (forall l :: l in c && l.Level? ==> l.k < PRIORITY_LEVELS && (l.queue in counts || c[l] == []))
    && (forall l :: l in c && l.Children? ==> l.parent in pcbs)
    && (forall p :: p in pcbs ==> Children(p) in c)
    && (forall r :: r in owner && r.Node? ==> r.node.pcb in pcbs)
  }

  /** Every initialised queue's `process_count` is the number of PCBs in its levels. */
  ghost predicate Counted(counts: map<nat, nat>, c: Members)
  {
    forall q {:trigger Total(c, q, PRIORITY_LEVELS)} :: q in counts ==> counts[q] == Total(c, q, PRIORITY_LEVELS)
  }

  /** The fields of every PCB match where its nodes are linked. */
  ghost predicate Placed(pcbs: map<nat, Pcb>, counts: map<nat, nat>, owner: Owners)
  {
    forall p {:trigger PcbPlaced(pcbs, counts, owner, p)} :: p in pcbs ==> PcbPlaced(pcbs, counts, owner, p)
  }

  /** The PCB table, the process counts, and the owners and members of the lists agree. */
  ghost predicate Consistent(pcbs: map<nat, Pcb>, counts: map<nat, nat>, owner: Owners, c: Members)
  {
    Shaped(pcbs, counts, owner, c) && Counted(counts, c) && Placed(pcbs, counts, owner)
  }

  /** One node of PCB `x.pcb` moves (to list `o`, or out of every list),
      the list `l` it leaves or joins becomes `s`, the PCB's fields become
      `pcb` and its queue's count follows: the table stays consistent. */
  lemma Relink(pcbs: map<nat, Pcb>, counts: map<nat, nat>, owner: Owners, c: Members,
               x: NodeKey, o: Option<ListKey>, l: ListKey, s: seq<NodeKey>, pcb: Pcb, counts': map<nat, nat>)
    requires Consistent(pcbs, counts, owner, c)
    requires x.pcb in pcbs && l in c && pcb.pid == pcbs[x.pcb].pid
    requires Node(Sched(x.pcb)) in owner && Node(Sibling(x.pcb)) in owner
    requires l.Level? ==> l.queue in counts
    requires l.Level? && o.None? ==> |s| + 1 == |c[l]| && counts' == Dec(counts, l.queue)
    requires l.Level? && o.Some? ==> |s| == |c[l]| + 1 && counts' == Inc(counts, l.queue)
    requires l.Children? ==> counts' == counts
    requires SchedPlaced(pcb, owner[Node(x) := o][Node(Sched(x.pcb))], counts')
    requires SiblingPlaced(pcbs[x.pcb := pcb], pcb, owner[Node(x) := o][Node(Sibling(x.pcb))])
    ensures Consistent(pcbs[x.pcb := pcb], counts', owner[Node(x) := o], c[l := s])
  {
    RelinkCounts(counts, c, l, s, o.Some?, counts');
    RelinkPlaced(pcbs, counts, owner, x, o, pcb, counts');
    RelinkShape(pcbs, counts, owner, c, x, o, l, s, pcb, counts');
  }

  /** The clauses of `Consistent` about which lists and nodes exist. */
  lemma RelinkShape(pcbs: map<nat, Pcb>, counts: map<nat, nat>, owner: Owners, c: Members,
                    x: NodeKey, o: Option<ListKey>, l: ListKey, s: seq<NodeKey>, pcb: Pcb, counts': map<nat, nat>)
    requires forall q, k: nat :: q in counts && k < PRIORITY_LEVELS ==> Level(q, k) in c
    requires forall l :: l in c && l.Level? ==> l.k < PRIORITY_LEVELS && (l.queue in counts || c[l] == [])
    requires forall l :: l in c && l.Children? ==> l.parent in pcbs
    requires forall p :: p in pcbs ==> Children(p) in c
    requires forall r :: r in owner && r.Node? ==> r.node.pcb in pcbs
    requires x.pcb in pcbs && l in c && (l.Level? ==> l.queue in counts)
    requires forall q :: q in counts <==> q in counts'
    ensures Shaped(pcbs[x.pcb := pcb], counts', owner[Node(x) := o], c[l := s])
  {
  }

  lemma RelinkCounts(counts: map<nat, nat>, c: Members, l: ListKey, s: seq<NodeKey>, joined: bool, counts': map<nat, nat>)
    requires forall q {:trigger Total(c, q, PRIORITY_LEVELS)} :: q in counts ==> counts[q] == Total(c, q, PRIORITY_LEVELS)
    requires l in c && (l.Level? ==> l.k < PRIORITY_LEVELS && l.queue in counts)
    requires l.Level? && !joined ==> |s| + 1 == |c[l]| && counts' == Dec(counts, l.queue)
    requires l.Level? && joined ==> |s| == |c[l]| + 1 && counts' == Inc(counts, l.queue)
    requires l.Children? ==> counts' == counts
    ensures Counted(counts', c[l := s])
  {
    if l.Level? {
      TotalAtLeast(c, l.queue, l.k, PRIORITY_LEVELS);
    }
    forall q | q in counts'
      ensures counts'[q] == Total(c[l := s], q, PRIORITY_LEVELS)
    {
      TotalUpdate(c, l, s, q, PRIORITY_LEVELS);
    }
  }

  /** Each level counts towards its queue's total. */
  lemma {:induction false} TotalAtLeast(c: Members, q: nat, k: nat, n: nat)
    requires k < n
    ensures Total(c, q, n) >= Len(c, Level(q, k))
  {
    if k < n - 1 {
      TotalAtLeast(c, q, k, n - 1);
    }
  }

  lemma RelinkPlaced(pcbs: map<nat, Pcb>, counts: map<nat, nat>, owner: Owners,
                     x: NodeKey, o: Option<ListKey>, pcb: Pcb, counts': map<nat, nat>)
    requires forall p {:trigger PcbPlaced(pcbs, counts, owner, p)} :: p in pcbs ==> PcbPlaced(pcbs, counts, owner, p)
    requires x.pcb in pcbs && pcb.pid == pcbs[x.pcb].pid
    requires Node(Sched(x.pcb)) in owner && Node(Sibling(x.pcb)) in owner
    requires forall q :: q in counts ==> q in counts'
    requires SchedPlaced(pcb, owner[Node(x) := o][Node(Sched(x.pcb))], counts')
    requires SiblingPlaced(pcbs[x.pcb := pcb], pcb, owner[Node(x) := o][Node(Sibling(x.pcb))])
    ensures Placed(pcbs[x.pcb := pcb], counts', owner[Node(x) := o])
  {
    var pcbs', owner' := pcbs[x.pcb := pcb], owner[Node(x) := o];
    forall p | p in pcbs'
      ensures PcbPlaced(pcbs', counts', owner', p)
    {
      if p != x.pcb {
        assert PcbPlaced(pcbs, counts, owner, p);
        assert owner'[Node(Sched(p))] == owner[Node(Sched(p))];
        assert owner'[Node(Sibling(p))] == owner[Node(Sibling(p))];
      }
    }
  }

  /** Changing PCB fields that say nothing about where its nodes are
      linked keeps the table consistent. */
  lemma Retouch(pcbs: map<nat, Pcb>, counts: map<nat, nat>, owner: Owners, c: Members, p: nat, pcb: Pcb)
    requires Consistent(pcbs, counts, owner, c) && p in pcbs
    requires pcb.pid == pcbs[p].pid && pcb.ppid == pcbs[p].ppid
    requires pcb.parent == pcbs[p].parent && pcb.currentQueue == pcbs[p].currentQueue
    ensures Consistent(pcbs[p := pcb], counts, owner, c)
  {
    var pcbs' := pcbs[p := pcb];
    forall x | x in pcbs'
      ensures PcbPlaced(pcbs', counts, owner, x)
    {
      assert PcbPlaced(pcbs, counts, owner, x);
    }
  }

  /** `list_init` of an empty level keeps the table consistent. */
  lemma LevelInitOk(pcbs: map<nat, Pcb>, counts: map<nat, nat>, owner: Owners, c: Members, q: nat, j: nat)
    requires Consistent(pcbs, counts, owner, c)
    requires j < PRIORITY_LEVELS && Len(c, Level(q, j)) == 0
    ensures Consistent(pcbs, counts, owner[Sentinel(Level(q, j)) := None], c[Level(q, j) := []])
  {
    var l := Level(q, j);
    var owner', c' := owner[Sentinel(l) := None], c[l := []];
    forall x | x in counts
      ensures counts[x] == Total(c', x, PRIORITY_LEVELS)
    {
      TotalUpdate(c, l, [], x, PRIORITY_LEVELS);
    }
    forall x | x in pcbs
      ensures PcbPlaced(pcbs, counts, owner', x)
    {
      assert PcbPlaced(pcbs, counts, owner, x);
    }
  }

  /** A count that is the total of present levels is 0 exactly when they are all empty. */
  lemma LevelsEmpty(c: Members, q: nat, count: nat)
    requires forall k: nat :: k < PRIORITY_LEVELS ==> Level(q, k) in c
    requires count == Total(c, q, PRIORITY_LEVELS)
    ensures count == 0 <==> forall k: nat :: k < PRIORITY_LEVELS ==> c[Level(q, k)] == []
  {
    TotalZero(c, q, PRIORITY_LEVELS);
    assert forall k: nat :: k < PRIORITY_LEVELS ==> Len(c, Level(q, k)) == |c[Level(q, k)]|;
  }

  /** What `QueueInit` keeps from one level to the next: levels below
      `i + 1` exist and are empty, every list that existed keeps its nodes. */
  lemma LevelInitFrame(c0: Members, c: Members, q: nat, i: nat)
    requires Len(c, Level(q, i)) == 0
    requires forall j: nat :: j < i ==> Level(q, j) in c && c[Level(q, j)] == []
    requires forall l :: l in c0 ==> l in c && c[l] == c0[l]
    ensures forall j: nat :: j < i + 1 ==> Level(q, j) in c[Level(q, i) := []] && c[Level(q, i) := []][Level(q, j)] == []
    ensures forall l :: l in c0 ==> l in c[Level(q, i) := []] && c[Level(q, i) := []][l] == c0[l]
  {
  }

  /** Once every level of `q` is initialised and empty, its count is 0. */
  lemma QueueInitDone(pcbs: map<nat, Pcb>, counts: map<nat, nat>, owner: Owners, c: Members, q: nat)
    requires Consistent(pcbs, counts, owner, c)
    requires forall j: nat :: j < PRIORITY_LEVELS ==> Level(q, j) in c && c[Level(q, j)] == []
    ensures Consistent(pcbs, counts[q := 0], owner, c)
  {
    TotalZero(c, q, PRIORITY_LEVELS);
    forall x | x in pcbs
      ensures PcbPlaced(pcbs, counts[q := 0], owner, x)
    {
      assert PcbPlaced(pcbs, counts, owner, x);
    }
  }

  /** `process_count--` behind its guard: never below 0. */
  function Dec(counts: map<nat, nat>, q: nat): (r: map<nat, nat>)
    requires q in counts
    ensures q in r && r[q] == if counts[q] > 0 then counts[q] - 1 else 0
    ensures forall x :: x in counts && x != q ==> x in r && r[x] == counts[x]
  {
    if counts[q] > 0 then counts[q := counts[q] - 1] else counts
  }

  /** PCB `p` was at the front of level `k` of queue `q` and is unlinked
      from it: the level loses its front, the queue's count goes down (never
      below 0) and the PCB's `current_queue` becomes NULL; nothing else changes. */
  ghost predicate PoppedFront(pcbs0: map<nat, Pcb>, counts0: map<nat, nat>, c0: Members,
                              pcbs: map<nat, Pcb>, counts: map<nat, nat>, c: Members, q: nat, k: nat, p: nat)
  {
    && Level(q, k) in c0 && c0[Level(q, k)] != [] && c0[Level(q, k)][0] == Sched(p)
    && p in pcbs0 && q in counts0
    && c == c0[Level(q, k) := c0[Level(q, k)][1..]]
    && counts == Dec(counts0, q)
    && pcbs == pcbs0[p := pcbs0[p].(currentQueue := None)]
  }

  /** Unlinking the front PCB of a level, with its count and
      `current_queue` updated, keeps the table consistent. */
  lemma PopFrontOk(pcbs: map<nat, Pcb>, counts: map<nat, nat>, owner: Owners, c: Members, q: nat, k: nat, p: nat,
                    pcbs': map<nat, Pcb>, counts': map<nat, nat>, owner': Owners, c': Members)
    requires Consistent(pcbs, counts, owner, c) && q in counts && p in pcbs
    requires Level(q, k) in c && c[Level(q, k)] != [] && c[Level(q, k)][0] == Sched(p)
    requires Node(Sched(p)) in owner && owner[Node(Sched(p))] == Some(Level(q, k))
    requires pcbs' == pcbs[p := pcbs[p].(currentQueue := None)] && counts' == Dec(counts, q)
    requires owner' == owner[Node(Sched(p)) := None] && c' == c[Level(q, k) := c[Level(q, k)][1..]]
    ensures Consistent(pcbs', counts', owner', c')
  {
    assert PcbPlaced(pcbs, counts, owner, p);
    var l := Level(q, k);
    Relink(pcbs, counts, owner, c, Sched(p), None, l, c[l][1..], pcbs[p].(currentQueue := None), Dec(counts, q));
  }

  /** The table after `queue_attach`: PCB `p` left wherever it was queued
      (that queue's count going down, never below 0), its priority is
      clamped, it sits at the back (or the front) of that level of queue
      `q`, its `current_queue` is `q` and `q`'s count went up by one. */
  ghost predicate Enqueued(pcbs0: map<nat, Pcb>, counts0: map<nat, nat>, owner0: Owners, c0: Members,
                           pcbs: map<nat, Pcb>, counts: map<nat, nat>, c: Members, q: nat, p: nat, front: bool)
  {
    && p in pcbs0 && Node(Sched(p)) in owner0 && q in counts0
    && var o := pcbs0[p].currentQueue;
       var k := Clamp(pcbs0[p].priority);
       var c1 := Detached(c0, owner0[Node(Sched(p))], Sched(p));
       var counts1 := if o.Some? && o.value in counts0 then Dec(counts0, o.value) else counts0;
       && Level(q, k) in c1 && q in counts1
       && c == c1[Level(q, k) := if front then [Sched(p)] + c1[Level(q, k)] else c1[Level(q, k)] + [Sched(p)]]
       && counts == Inc(counts1, q)
       && pcbs == pcbs0[p := pcbs0[p].(priority := k, currentQueue := Some(q))]
  }

  /** The table after `process_queue_remove` of a queued PCB `p`: its
      scheduling node left its level, the count of its queue went down
      (never below 0) and its `current_queue` is NULL. */
  ghost predicate Dequeued(pcbs0: map<nat, Pcb>, counts0: map<nat, nat>, owner0: Owners, c0: Members,
                           pcbs: map<nat, Pcb>, counts: map<nat, nat>, c: Members, p: nat)
  {
    && p in pcbs0 && pcbs0[p].currentQueue.Some? && pcbs0[p].currentQueue.value in counts0
    && Node(Sched(p)) in owner0
    && c == Detached(c0, owner0[Node(Sched(p))], Sched(p))
    && counts == Dec(counts0, pcbs0[p].currentQueue.value)
    && pcbs == pcbs0[p := pcbs0[p].(currentQueue := None)]
  }

  /** `queue_attach` as its two steps: the removal from the old queue (if
      any) followed by the link into the new level gives `Enqueued`. */
  lemma EnqueuedAfter(pcbs0: map<nat, Pcb>, counts0: map<nat, nat>, owner0: Owners, c0: Members,
                      pcbs1: map<nat, Pcb>, counts1: map<nat, nat>, c1: Members, q: nat, p: nat, front: bool)
    requires p in pcbs0 && Node(Sched(p)) in owner0 && q in counts0 && q in counts1
    requires pcbs0[p].currentQueue.Some? ==> Dequeued(pcbs0, counts0, owner0, c0, pcbs1, counts1, c1, p)
    requires pcbs0[p].currentQueue.None? ==>
               owner0[Node(Sched(p))].None? && pcbs1 == pcbs0 && counts1 == counts0 && c1 == c0
    requires Level(q, Clamp(pcbs0[p].priority)) in c1
    ensures var k := Clamp(pcbs0[p].priority); var l := Level(q, k);
      Enqueued(pcbs0, counts0, owner0, c0, pcbs1[p := pcbs1[p].(priority := k, currentQueue := Some(q))],
               Inc(counts1, q), c1[l := if front then [Sched(p)] + c1[l] else c1[l] + [Sched(p)]], q, p, front)
  {
    var k := Clamp(pcbs0[p].priority);
    assert pcbs1[p := pcbs1[p].(priority := k, currentQueue := Some(q))]
        == pcbs0[p := pcbs0[p].(priority := k, currentQueue := Some(q))];
  }

  /** Unlinking a queued PCB's scheduling node from its level, with its
      queue's count and `current_queue` updated, keeps the table consistent. */
  lemma RemoveOk(pcbs: map<nat, Pcb>, counts: map<nat, nat>, owner: Owners, c: Members, p: nat, l: ListKey)
    requires Consistent(pcbs, counts, owner, c) && p in pcbs
    requires Node(Sched(p)) in owner && owner[Node(Sched(p))] == Some(l) && l in c && Sched(p) in c[l]
    ensures l.Level? && pcbs[p].currentQueue == Some(l.queue) && l.queue in counts
    ensures Consistent(pcbs[p := pcbs[p].(currentQueue := None)], Dec(counts, l.queue),
                       owner[Node(Sched(p)) := None], c[l := Without(c[l], Sched(p))])
  {
    assert PcbPlaced(pcbs, counts, owner, p);
    Relink(pcbs, counts, owner, c, Sched(p), None, l, Without(c[l], Sched(p)),
           pcbs[p].(currentQueue := None), Dec(counts, l.queue));
  }

  /** An unqueued PCB's scheduling node is in no list, and every level
      of an initialised queue exists. */
  lemma PushReady(pcbs: map<nat, Pcb>, counts: map<nat, nat>, owner: Owners, c: Members, q: nat, k: Byte, p: nat)
    requires Consistent(pcbs, counts, owner, c) && p in pcbs && pcbs[p].currentQueue.None?
    requires q in counts && k < PRIORITY_LEVELS
    ensures Node(Sched(p)) in owner && owner[Node(Sched(p))].None? && Level(q, k) in c
  {
    assert PcbPlaced(pcbs, counts, owner, p);
  }

  /** Linking an unqueued PCB at either end of level `k` of queue `q`, with
      its priority, `current_queue` and the count updated, keeps the table
      consistent. */
  lemma PushOk(pcbs: map<nat, Pcb>, counts: map<nat, nat>, owner: Owners, c: Members, q: nat, k: Byte, p: nat,
               linked: seq<NodeKey>, pcbs': map<nat, Pcb>, counts': map<nat, nat>, owner': Owners, c': Members)
    requires Consistent(pcbs, counts, owner, c) && p in pcbs && pcbs[p].currentQueue.None?
    requires q in counts && k < PRIORITY_LEVELS && Level(q, k) in c
    requires linked == [Sched(p)] + c[Level(q, k)] || linked == c[Level(q, k)] + [Sched(p)]
    requires pcbs' == pcbs[p := pcbs[p].(priority := k, currentQueue := Some(q))] && counts' == Inc(counts, q)
    requires owner' == owner[Node(Sched(p)) := Some(Level(q, k))] && c' == c[Level(q, k) := linked]
    ensures Consistent(pcbs', counts', owner', c')
  {
    assert PcbPlaced(pcbs, counts, owner, p);
    Relink(pcbs, counts, owner, c, Sched(p), Some(Level(q, k)), Level(q, k), linked,
           pcbs[p].(priority := k, currentQueue := Some(q)), Inc(counts, q));
  }

  /** Initialising the PCB slot `p`, which is new or neither queued nor a
      child nor a parent, keeps the table consistent. */
  lemma PcbInitOk(pcbs: map<nat, Pcb>, counts: map<nat, nat>, owner: Owners, c: Members, p: nat, pcb: Pcb)
    requires Consistent(pcbs, counts, owner, c)
    requires p in pcbs ==> pcbs[p].currentQueue.None? && pcbs[p].parent.None?
    requires forall r :: r in owner && r.Node? ==> owner[r] != Some(Children(p))
    requires pcb.currentQueue.None? && pcb.parent.None? && pcb.ppid == 0
    ensures p in pcbs ==> Node(Sched(p)) in owner && owner[Node(Sched(p))].None?
    ensures p in pcbs ==> Node(Sibling(p)) in owner && owner[Node(Sibling(p))].None?
    ensures p !in pcbs ==> Node(Sched(p)) !in owner && Node(Sibling(p)) !in owner && Children(p) !in c
    ensures Consistent(pcbs[p := pcb], counts,
                       owner[Sentinel(Children(p)) := None][Node(Sched(p)) := None][Node(Sibling(p)) := None],
                       c[Children(p) := []])
  {
    if p in pcbs {
      assert PcbPlaced(pcbs, counts, owner, p);
    }
    var pcbs', owner', c' := pcbs[p := pcb], owner[Sentinel(Children(p)) := None][Node(Sched(p)) := None][Node(Sibling(p)) := None], c[Children(p) := []];
    forall x | x in counts
      ensures counts[x] == Total(c', x, PRIORITY_LEVELS)
    {
      TotalUpdate(c, Children(p), [], x, PRIORITY_LEVELS);
    }
    forall x | x in pcbs'
      ensures PcbPlaced(pcbs', counts, owner', x)
    {
      if x != p {
        assert PcbPlaced(pcbs, counts, owner, x);
      }
    }
  }

  /** Unlinking a PCB's sibling node from its parent's children list, with
      `parent` cleared and `ppid` 0, keeps the table consistent. */
  lemma DetachChildOk(pcbs: map<nat, Pcb>, counts: map<nat, nat>, owner: Owners, c: Members, x: nat,
                       pcbs': map<nat, Pcb>, owner': Owners, c': Members)
    requires Consistent(pcbs, counts, owner, c) && x in pcbs && Node(Sibling(x)) in owner
    requires owner[Node(Sibling(x))].Some? ==>
               owner[Node(Sibling(x))].value in c && Sibling(x) in c[owner[Node(Sibling(x))].value]
    requires pcbs' == pcbs[x := pcbs[x].(parent := None, ppid := 0)]
    requires owner[Node(Sibling(x))].None? ==> owner' == owner && c' == c
    requires owner[Node(Sibling(x))].Some? ==> var l := owner[Node(Sibling(x))].value;
               owner' == owner[Node(Sibling(x)) := None] && c' == c[l := Without(c[l], Sibling(x))]
    ensures owner[Node(Sibling(x))].None? ==> pcbs[x].parent.None? && pcbs[x].ppid == 0
    ensures Consistent(pcbs', counts, owner', c')
  {
    assert PcbPlaced(pcbs, counts, owner, x);
    var pcb := pcbs[x].(parent := None, ppid := 0);
    match owner[Node(Sibling(x))]
    case None =>
      Retouch(pcbs, counts, owner, c, x, pcb);
    case Some(l) =>
      Relink(pcbs, counts, owner, c, Sibling(x), None, l, Without(c[l], Sibling(x)), pcb, counts);
  }

  /** Appending an unlinked PCB to the children list of `par`, with its
      `parent` and `ppid` set, keeps the table consistent. */
  lemma AttachReady(pcbs: map<nat, Pcb>, counts: map<nat, nat>, owner: Owners, c: Members, par: nat, x: nat)
    requires Consistent(pcbs, counts, owner, c) && par in pcbs && x in pcbs && pcbs[x].parent.None?
    ensures Node(Sibling(x)) in owner && owner[Node(Sibling(x))].None? && Children(par) in c
  {
    assert PcbPlaced(pcbs, counts, owner, x);
  }

  lemma AttachChildOk(pcbs: map<nat, Pcb>, counts: map<nat, nat>, owner: Owners, c: Members, par: nat, x: nat,
                      pcbs': map<nat, Pcb>, owner': Owners, c': Members)
    requires Consistent(pcbs, counts, owner, c) && par in pcbs && x in pcbs && pcbs[x].parent.None?
    requires Children(par) in c
    requires pcbs' == pcbs[x := pcbs[x].(parent := Some(par), ppid := pcbs[par].pid)]
    requires owner' == owner[Node(Sibling(x)) := Some(Children(par))]
    requires c' == c[Children(par) := c[Children(par)] + [Sibling(x)]]
    ensures Consistent(pcbs', counts, owner', c')
  {
    assert PcbPlaced(pcbs, counts, owner, x);
    var l := Children(par);
    Relink(pcbs, counts, owner, c, Sibling(x), Some(l), l, c[l] + [Sibling(x)],
           pcbs[x].(parent := Some(par), ppid := pcbs[par].pid), counts);
  }

  /** The PCB `pcb_init` writes: state NEW, the priority clamped, no
      parent and no queue, every counter and the exit code 0 and the
      saved context zeroed (`memset` followed by the field stores). */
  function InitialPcb(pid: nat, name: nat, entryPoint: nat, stackBase: nat, stackTop: nat,
                      priority: Byte, foreground: ForegroundMode): (r: Pcb)
    ensures r.pid == pid && r.ppid == 0 && r.state == New && r.foreground == foreground
    ensures PriorityValid(r.priority) && (PriorityValid(priority) ==> r.priority == priority)
    ensures r.parent.None? && r.currentQueue.None?
    ensures r.ticksRemaining == 0 && r.quantumTicks == 0 && r.exitCode == 0 && r.context == ZeroContext()
  {
    Pcb(pid, 0, name, entryPoint, stackBase, stackTop, New, foreground, Clamp(priority), 0, 0,
        ZeroContext(), None, None, 0)
  }

  /** The table after `pcb_detach_child` of PCB `x`: its sibling node
      left the children list that held it, if any, and `parent` and
      `ppid` are cleared. */
  ghost predicate Orphaned(pcbs0: map<nat, Pcb>, owner0: Owners, c0: Members,
                           pcbs: map<nat, Pcb>, c: Members, x: nat)
  {
    && x in pcbs0 && Node(Sibling(x)) in owner0
    && c == Detached(c0, owner0[Node(Sibling(x))], Sibling(x))
    && pcbs == pcbs0[x := pcbs0[x].(parent := None, ppid := 0)]
  }

  /** The table after `pcb_attach_child(par, x)`: `x` left its old
      parent's children list and is last in that of `par`, whose pid is
      its `ppid`. */
  ghost predicate Adopted(pcbs0: map<nat, Pcb>, owner0: Owners, c0: Members,
                          pcbs: map<nat, Pcb>, c: Members, par: nat, x: nat)
  {
    && x in pcbs0 && par in pcbs0 && Node(Sibling(x)) in owner0
    && var c1 := Detached(c0, owner0[Node(Sibling(x))], Sibling(x));
       && Children(par) in c1
       && c == c1[Children(par) := c1[Children(par)] + [Sibling(x)]]
       && pcbs == pcbs0[x := pcbs0[x].(parent := Some(par), ppid := pcbs0[par].pid)]
  }

  /** `pcb_attach_child` as its two steps: the detach followed by the
      append gives `Adopted`. */
  lemma AdoptedAfter(pcbs0: map<nat, Pcb>, owner0: Owners, c0: Members,
                     pcbs1: map<nat, Pcb>, c1: Members, par: nat, x: nat)
    requires Orphaned(pcbs0, owner0, c0, pcbs1, c1, x) && par in pcbs0 && Children(par) in c1
    ensures Adopted(pcbs0, owner0, c0, pcbs1[x := pcbs1[x].(parent := Some(par), ppid := pcbs1[par].pid)],
                    c1[Children(par) := c1[Children(par)] + [Sibling(x)]], par, x)
  {
    assert pcbs1[x := pcbs1[x].(parent := Some(par), ppid := pcbs1[par].pid)]
        == pcbs0[x := pcbs0[x].(parent := Some(par), ppid := pcbs0[par].pid)];
  }

  /** `process_count++`. */
  function Inc(counts: map<nat, nat>, q: nat): (r: map<nat, nat>)
    requires q in counts
    ensures q in r && r[q] == counts[q] + 1
    ensures forall x :: x in counts && x != q ==> x in r && r[x] == counts[x]
  {
    counts[q := counts[q] + 1]
  }

  /** The PCB table with its process queues and children lists. */
  class ProcessTable {
    /** The fields of every initialised PCB. */
    var pcbs: map<nat, Pcb>
    /** `process_count` of every initialised process queue. */
    var counts: map<nat, nat>
    /** Every level list, children list and embedded node. */
    const lists: LinkedLists<NodeKey, ListKey>

    ghost predicate Valid()
      reads this, lists
    {
      lists.Valid() && Consistent(pcbs, counts, lists.owner, lists.Contents)
    }

    constructor ()
      ensures Valid() && fresh(lists) && pcbs == map[] && counts == map[] && lists.Contents == map[]
    {
      pcbs, counts := map[], map[];
      lists := new LinkedLists();
    }

    /** A queue's count is 0 exactly when all its levels are empty. */
    lemma NoneQueued(q: nat)
      requires Valid() && q in counts
      ensures counts[q] == 0 <==> forall k: nat :: k < PRIORITY_LEVELS ==> LevelOf(lists.Contents, q, k) == []
    {
      LevelsEmpty(lists.Contents, q, counts[q]);
      assert forall k: nat :: k < PRIORITY_LEVELS ==> LevelOf(lists.Contents, q, k) == lists.Contents[Level(q, k)];
    }

    /** A node of a level is the scheduling node of a PCB queued there. */
    lemma LevelHolds(l: ListKey, i: nat)
      requires Valid() && l in lists.Contents && l.Level? && i < |lists.Contents[l]|
      ensures var n := lists.Contents[l][i];
        n.Sched? && n.pcb in pcbs && pcbs[n.pcb].currentQueue == Some(l.queue) && l.queue in counts
    {
      lists.Owned(l, i);
      assert PcbPlaced(pcbs, counts, lists.owner, lists.Contents[l][i].pcb);
    }

    /** A node of a children list is the sibling node of a child of that parent. */
    lemma ChildrenHold(l: ListKey, i: nat)
      requires Valid() && l in lists.Contents && l.Children? && i < |lists.Contents[l]|
      ensures var n := lists.Contents[l][i];
        n.Sibling? && n.pcb in pcbs && pcbs[n.pcb].parent == Some(l.parent)
    {
      lists.Owned(l, i);
      assert PcbPlaced(pcbs, counts, lists.owner, lists.Contents[l][i].pcb);
    }

    /** `process_queue_init`: every level empty and the count 0; NULL is
        ignored.  A queue may be re-initialised only while it is empty. */
    method QueueInit(queue: Option<nat>)
      requires Valid()
      requires queue.Some? && queue.value in counts ==> counts[queue.value] == 0
      modifies this, lists
      ensures Valid() && pcbs == old(pcbs)
      ensures queue.None? ==> counts == old(counts) && lists.Contents == old(lists.Contents)
      ensures queue.Some? ==> counts == old(counts)[queue.value := 0]
      ensures queue.Some? ==> forall k: nat :: k < PRIORITY_LEVELS ==> LevelOf(lists.Contents, queue.value, k) == []
      ensures forall l :: l in old(lists.Contents) ==> l in lists.Contents && lists.Contents[l] == old(lists.Contents[l])
    {
      if queue.None? {
        return;
      }
      var q := queue.value;
      for i := 0 to PRIORITY_LEVELS
        invariant Valid() && pcbs == old(pcbs) && counts == old(counts)
        invariant forall j: nat :: j < i ==> Level(q, j) in lists.Contents && lists.Contents[Level(q, j)] == []
        invariant forall l :: l in old(lists.Contents) ==> l in lists.Contents && lists.Contents[l] == old(lists.Contents[l])
      {
        ghost var owner, c := lists.owner, lists.Contents;
        if q in counts {
          TotalZero(c, q, PRIORITY_LEVELS);
        }
        lists.Init(Some(Level(q, i)));
        LevelInitOk(pcbs, counts, owner, c, q, i);
        LevelInitFrame(old(lists.Contents), c, q, i);
      }
      QueueInitDone(pcbs, counts, lists.owner, lists.Contents, q);
      counts := counts[q := 0];
    }

    /** `process_queue_is_empty`: NULL, or no PCB in any level. */
    function IsEmpty(queue: Option<nat>): (r: bool)
      reads this, lists
      requires Valid() && (queue.Some? ==> queue.value in counts)
      ensures r <==> queue.None? || forall k: nat :: k < PRIORITY_LEVELS ==> LevelOf(lists.Contents, queue.value, k) == []
    {
      if queue.None? then true
      else
        NoneQueued(queue.value);
        counts[queue.value] == 0
    }

    /** `process_queue_size`: 0 for NULL, else the PCBs in all levels. */
    function Size(queue: Option<nat>): (r: nat)
      reads this, lists
      requires Valid() && (queue.Some? ==> queue.value in counts)
      ensures r == if queue.None? then 0 else Total(lists.Contents, queue.value, PRIORITY_LEVELS)
    {
      if queue.None? then 0 else counts[queue.value]
    }

    /** `queue_peek_from_level` / `process_queue_peek_priority`: the PCB at
        the front of one level; NULL for a NULL queue, an invalid priority or
        an empty level. */
    function PeekPriority(queue: Option<nat>, priority: Byte): (r: Option<nat>)
      reads this, lists
      requires Valid() && (queue.Some? ==> queue.value in counts)
      ensures queue.None? || !PriorityValid(priority) ==> r.None?
      ensures r == if queue.None? || !PriorityValid(priority) then None else Front(lists.Contents, queue.value, priority)
    {
      if queue.None? || !PriorityValid(priority) then None
      else
        var l := Level(queue.value, priority);
        var node := lists.PeekFront(Some(l));
        if node.None? then None
        else
          LevelHolds(l, 0);
          Some(node.value.pcb)
    }

    /** `process_queue_peek`: scans the levels from the most urgent. */
    method Peek(queue: Option<nat>) returns (r: Option<nat>)
      requires Valid() && (queue.Some? ==> queue.value in counts)
      ensures r == if queue.None? then None else Urgent(lists.Contents, queue.value)
    {
      if queue.None? {
        return None;
      }
      var q := queue.value;
      var priority: Byte := PRIORITY_MIN;
      while priority <= PRIORITY_MAX
        invariant priority <= PRIORITY_LEVELS
        invariant UrgentLevel(lists.Contents, q, 0) == UrgentLevel(lists.Contents, q, priority)
      {
        r := PeekPriority(queue, priority);
        UrgentScan(lists.Contents, q, priority);
        if r.Some? {
          return;
        }
        priority := priority + 1;
      }
      UrgentNone(lists.Contents, q);
      return None;
    }

    /** `queue_pop_from_level` / `process_queue_pop_priority`: unlinks the
        PCB at the front of one level, decrements the count (never below 0)
        and clears its `current_queue`; NULL, with nothing changed, for a
        NULL queue, an invalid priority or an empty level. */
    method PopPriority(queue: Option<nat>, priority: Byte) returns (r: Option<nat>)
      requires Valid() && (queue.Some? ==> queue.value in counts)
      modifies this, lists
      ensures Valid()
      ensures r == if queue.None? || !PriorityValid(priority) then None else Front(old(lists.Contents), queue.value, priority)
      ensures r.None? ==> pcbs == old(pcbs) && counts == old(counts) && lists.Contents == old(lists.Contents)
      ensures r.Some? ==> PoppedFront(old(pcbs), old(counts), old(lists.Contents), pcbs, counts, lists.Contents,
                                      queue.value, priority, r.value)
    {
      if queue.None? || !PriorityValid(priority) {
        return None;
      }
      var q := queue.value;
      var l := Level(q, priority);
      ghost var pcbs0, counts0, owner0, c0 := pcbs, counts, lists.owner, lists.Contents;
      if c0[l] != [] {
        LevelHolds(l, 0);
        lists.Owned(l, 0);
      }
      var node := lists.PopFront(Some(l));
      if node.None? {
        return None;
      }
      var p := node.value.pcb;
      pcbs, counts := pcbs[p := pcbs[p].(currentQueue := None)], Dec(counts, q);
      PopFrontOk(pcbs0, counts0, owner0, c0, q, priority as nat, p, pcbs, counts, lists.owner, lists.Contents);
      return Some(p);
    }

    /** `process_queue_pop`: pops from the levels in order of urgency, so
        the result is what `Peek` selects. */
    method Pop(queue: Option<nat>) returns (r: Option<nat>)
      requires Valid() && (queue.Some? ==> queue.value in counts)
      modifies this, lists
      ensures Valid()
      ensures r == if queue.None? then None else Urgent(old(lists.Contents), queue.value)
      ensures r.None? ==> pcbs == old(pcbs) && counts == old(counts) && lists.Contents == old(lists.Contents)
      ensures r.Some? ==> PoppedFront(old(pcbs), old(counts), old(lists.Contents), pcbs, counts, lists.Contents,
                                      queue.value, old(UrgentLevel(lists.Contents, queue.value, 0)), r.value)
    {
      if queue.None? {
        return None;
      }
      var q := queue.value;
      ghost var pcbs0, counts0, c0 := pcbs, counts, lists.Contents;
      for priority := PRIORITY_MIN as nat to PRIORITY_LEVELS
        invariant Valid() && pcbs == pcbs0 && counts == counts0 && lists.Contents == c0
        invariant UrgentLevel(c0, q, 0) == UrgentLevel(c0, q, priority)
      {
        r := PopPriority(queue, priority as Byte);
        UrgentScan(c0, q, priority);
        if r.Some? {
          assert r == Urgent(c0, q) && UrgentLevel(c0, q, 0) == priority;
          return;
        }
      }
      UrgentNone(c0, q);
      return None;
    }
    /** A queued PCB's scheduling node is in a level of the queue its
        `current_queue` names. */
    lemma QueuedAt(p: nat)
      requires Valid() && p in pcbs && pcbs[p].currentQueue.Some?
      ensures Node(Sched(p)) in lists.owner && lists.owner[Node(Sched(p))].Some?
      ensures var l := lists.owner[Node(Sched(p))].value;
        && l.Level? && l.queue == pcbs[p].currentQueue.value && l.k < PRIORITY_LEVELS
        && l in lists.Contents && Sched(p) in lists.Contents[l]
    {
      assert PcbPlaced(pcbs, counts, lists.owner, p);
      lists.OwnerHolds(Sched(p));
    }

    /** A PCB whose `current_queue` is NULL is in no level of any queue. */
    lemma Unqueued(p: nat)
      requires Valid() && p in pcbs && pcbs[p].currentQueue.None?
      ensures forall l :: l in lists.Contents && l.Level? ==> Sched(p) !in lists.Contents[l]
    {
      assert PcbPlaced(pcbs, counts, lists.owner, p);
      lists.OwnerExact(Sched(p));
    }

    /** A queue holding a PCB has a positive `process_count`, so the guard
        on its decrement never fires. */
    lemma CountPositive(p: nat)
      requires Valid() && p in pcbs && pcbs[p].currentQueue.Some?
      ensures pcbs[p].currentQueue.value in counts && counts[pcbs[p].currentQueue.value] > 0
    {
      QueuedAt(p);
      var l := lists.owner[Node(Sched(p))].value;
      TotalAtLeast(lists.Contents, l.queue, l.k, PRIORITY_LEVELS);
    }

    /** `process_queue_remove`: unlinks a queued PCB from its queue, which
        must be `queue` unless `queue` is NULL; otherwise nothing happens. */
    method Remove(queue: Option<nat>, pcb: Option<nat>)
      requires Valid() && (pcb.Some? ==> pcb.value in pcbs)
      modifies this, lists
      ensures Valid()
      ensures pcb.None? || old(pcbs[pcb.value].currentQueue).None?
              || (queue.Some? && queue != old(pcbs[pcb.value].currentQueue)) ==>
                pcbs == old(pcbs) && counts == old(counts) && lists.Contents == old(lists.Contents)
      ensures pcb.Some? && old(pcbs[pcb.value].currentQueue).Some?
              && (queue.None? || queue == old(pcbs[pcb.value].currentQueue)) ==>
                Dequeued(old(pcbs), old(counts), old(lists.owner), old(lists.Contents),
                         pcbs, counts, lists.Contents, pcb.value)
    {
      if pcb.None? || pcbs[pcb.value].currentQueue.None? {
        return;
      }
      var p := pcb.value;
      var ownerQueue := pcbs[p].currentQueue.value;
      if queue.Some? && queue.value != ownerQueue {
        return;
      }
      ghost var pcbs0, counts0, owner0, c0 := pcbs, counts, lists.owner, lists.Contents;
      QueuedAt(p);
      ghost var l := lists.owner[Node(Sched(p))].value;
      if lists.IsLinked(Some(Sched(p))) {
        lists.Remove(Some(Sched(p)));
        counts := Dec(counts, ownerQueue);
      }
      pcbs := pcbs[p := pcbs[p].(currentQueue := None)];
      RemoveOk(pcbs0, counts0, owner0, c0, p, l);
    }

    /** `queue_attach`: takes the PCB out of the queue it is in, clamps its
        priority and links it at the back (or the front) of that level of
        `queue`; NULL for either is ignored. */
    method Attach(queue: Option<nat>, pcb: Option<nat>, front: bool)
      requires Valid() && (queue.Some? ==> queue.value in counts) && (pcb.Some? ==> pcb.value in pcbs)
      modifies this, lists
      ensures Valid()
      ensures queue.None? || pcb.None? ==>
                pcbs == old(pcbs) && counts == old(counts) && lists.Contents == old(lists.Contents)
      ensures queue.Some? && pcb.Some? ==>
                Enqueued(old(pcbs), old(counts), old(lists.owner), old(lists.Contents),
                         pcbs, counts, lists.Contents, queue.value, pcb.value, front)
    {
      if queue.None? || pcb.None? {
        return;
      }
      var p, q := pcb.value, queue.value;
      ghost var pcbs0, counts0, owner0, c0 := pcbs, counts, lists.owner, lists.Contents;
      assert PcbPlaced(pcbs, counts, lists.owner, p);
      if pcbs[p].currentQueue.Some? {
        Remove(None, pcb);
      }
      ghost var pcbs1, counts1, c1 := pcbs, counts, lists.Contents;
      Link(q, p, front);
      EnqueuedAfter(pcbs0, counts0, owner0, c0, pcbs1, counts1, c1, q, p, front);
    }

    /** The second half of `queue_attach`, for a PCB in no queue: clamps
        its priority, links it at one end of that level of queue `q`, sets
        `current_queue` and counts it. */
    method Link(q: nat, p: nat, front: bool)
      requires Valid() && q in counts && p in pcbs && pcbs[p].currentQueue.None?
      modifies this, lists
      ensures Valid() && Level(q, Clamp(old(pcbs[p].priority))) in old(lists.Contents)
      ensures var k := Clamp(old(pcbs[p].priority)); var l := Level(q, k); var c := old(lists.Contents);
        && lists.Contents == c[l := if front then [Sched(p)] + c[l] else c[l] + [Sched(p)]]
        && counts == Inc(old(counts), q)
        && pcbs == old(pcbs)[p := old(pcbs[p]).(priority := k, currentQueue := Some(q))]
    {
      ghost var pcbs1, counts1, owner1, c1 := pcbs, counts, lists.owner, lists.Contents;
      var k := Clamp(pcbs[p].priority);
      var l := Level(q, k);
      PushReady(pcbs1, counts1, owner1, c1, q, k, p);
      pcbs, counts := pcbs[p := pcbs[p].(priority := k, currentQueue := Some(q))], Inc(counts, q);
      ghost var linked := if front then [Sched(p)] + c1[l] else c1[l] + [Sched(p)];
      if front {
        lists.PushFront(Some(l), Some(Sched(p)));
      } else {
        lists.PushBack(Some(l), Some(Sched(p)));
      }
      PushOk(pcbs1, counts1, owner1, c1, q, k, p, linked, pcbs, counts, lists.owner, lists.Contents);
    }

    /** `process_queue_push`: `queue_attach` at the back of the level. */
    method Push(queue: Option<nat>, pcb: Option<nat>)
      requires Valid() && (queue.Some? ==> queue.value in counts) && (pcb.Some? ==> pcb.value in pcbs)
      modifies this, lists
      ensures Valid()
      ensures queue.None? || pcb.None? ==>
                pcbs == old(pcbs) && counts == old(counts) && lists.Contents == old(lists.Contents)
      ensures queue.Some? && pcb.Some? ==>
                Enqueued(old(pcbs), old(counts), old(lists.owner), old(lists.Contents),
                         pcbs, counts, lists.Contents, queue.value, pcb.value, false)
    {
      Attach(queue, pcb, false);
    }

    /** `process_queue_push_front`: `queue_attach` at the front of the level. */
    method PushFront(queue: Option<nat>, pcb: Option<nat>)
      requires Valid() && (queue.Some? ==> queue.value in counts) && (pcb.Some? ==> pcb.value in pcbs)
      modifies this, lists
      ensures Valid()
      ensures queue.None? || pcb.None? ==>
                pcbs == old(pcbs) && counts == old(counts) && lists.Contents == old(lists.Contents)
      ensures queue.Some? && pcb.Some? ==>
                Enqueued(old(pcbs), old(counts), old(lists.owner), old(lists.Contents),
                         pcbs, counts, lists.Contents, queue.value, pcb.value, true)
    {
      Attach(queue, pcb, true);
    }
      /** A PCB with no parent is in no children list. */
    lemma Orphan(p: nat)
      requires Valid() && p in pcbs && pcbs[p].parent.None?
      ensures forall l :: l in lists.Contents && l.Children? ==> Sibling(p) !in lists.Contents[l]
    {
      assert PcbPlaced(pcbs, counts, lists.owner, p);
      lists.OwnerExact(Sibling(p));
    }

    /** `pcb_init`: gives slot `pcb` an empty children list, unlinked nodes
        and the fields of `InitialPcb`, whose context is already the one
        `pcb_reset_context` writes; NULL is ignored.  The slot is new,
        or in no queue, no children list, and with no children. */
    method PcbInit(pcb: Option<nat>, pid: nat, name: nat, entryPoint: nat, stackBase: nat, stackTop: nat,
                   priority: Byte, foreground: ForegroundMode)
      requires Valid()
      requires pcb.Some? && pcb.value in pcbs ==>
                 pcbs[pcb.value].currentQueue.None? && pcbs[pcb.value].parent.None?
                 && lists.Contents[Children(pcb.value)] == []
      modifies this, lists
      ensures Valid() && counts == old(counts)
      ensures pcb.None? ==> pcbs == old(pcbs) && lists.Contents == old(lists.Contents)
      ensures pcb.Some? ==> var p := pcb.value;
        && pcbs == old(pcbs)[p := InitialPcb(pid, name, entryPoint, stackBase, stackTop, priority, foreground)]
        && lists.Contents == old(lists.Contents)[Children(p) := []]
    {
      if pcb.None? {
        return;
      }
      var p := pcb.value;
      ghost var pcbs0, owner0, c0 := pcbs, lists.owner, lists.Contents;
      var initial := InitialPcb(pid, name, entryPoint, stackBase, stackTop, priority, foreground);
      lists.OwnsNone(Children(p));
      PcbInitOk(pcbs0, counts, owner0, c0, p, initial);
      InitLinks(p);
      pcbs := pcbs[p := initial];
    }

    /** The list part of `pcb_init`: `list_init` of the children list and
        `list_node_init` of both nodes of PCB `p`, none of them linked. */
    method InitLinks(p: nat)
      requires lists.Valid()
      requires Children(p) !in lists.Contents || lists.Contents[Children(p)] == []
      requires Node(Sched(p)) !in lists.owner || lists.owner[Node(Sched(p))].None?
      requires Node(Sibling(p)) !in lists.owner || lists.owner[Node(Sibling(p))].None?
      modifies lists
      ensures lists.Valid() && lists.Contents == old(lists.Contents)[Children(p) := []]
      ensures lists.owner == old(lists.owner)[Sentinel(Children(p)) := None][Node(Sched(p)) := None][Node(Sibling(p)) := None]
    {
      lists.Init(Some(Children(p)));
      lists.NodeInit(Some(Sched(p)));
      lists.NodeInit(Some(Sibling(p)));
    }

    /** `pcb_reset_context`: zeroes the saved registers; NULL is ignored. */
    method ResetContext(pcb: Option<nat>)
      requires Valid() && (pcb.Some? ==> pcb.value in pcbs)
      modifies this
      ensures Valid() && counts == old(counts) && lists.Contents == old(lists.Contents)
      ensures pcb.None? ==> pcbs == old(pcbs)
      ensures pcb.Some? ==> pcbs == old(pcbs)[pcb.value := old(pcbs[pcb.value]).(context := ZeroContext())]
    {
      if pcb.None? {
        return;
      }
      var p := pcb.value;
      Retouch(pcbs, counts, lists.owner, lists.Contents, p, pcbs[p].(context := ZeroContext()));
      pcbs := pcbs[p := pcbs[p].(context := ZeroContext())];
    }

    /** `pcb_set_priority`: stores the clamped priority; NULL is ignored.
        A queued PCB stays in the level it is linked in. */
    method SetPriority(pcb: Option<nat>, priority: Byte)
      requires Valid() && (pcb.Some? ==> pcb.value in pcbs)
      modifies this
      ensures Valid() && counts == old(counts) && lists.Contents == old(lists.Contents)
      ensures pcb.None? ==> pcbs == old(pcbs)
      ensures pcb.Some? ==> PriorityValid(pcbs[pcb.value].priority)
      ensures pcb.Some? ==> pcbs == old(pcbs)[pcb.value := old(pcbs[pcb.value]).(priority := Clamp(priority))]
    {
      if pcb.None? {
        return;
      }
      var p := pcb.value;
      Retouch(pcbs, counts, lists.owner, lists.Contents, p, pcbs[p].(priority := Clamp(priority)));
      pcbs := pcbs[p := pcbs[p].(priority := Clamp(priority))];
    }

    /** `pcb_set_state`; NULL is ignored. */
    method SetState(pcb: Option<nat>, state: ProcessState)
      requires Valid() && (pcb.Some? ==> pcb.value in pcbs)
      modifies this
      ensures Valid() && counts == old(counts) && lists.Contents == old(lists.Contents)
      ensures pcb.None? ==> pcbs == old(pcbs)
      ensures pcb.Some? ==> pcbs == old(pcbs)[pcb.value := old(pcbs[pcb.value]).(state := state)]
    {
      if pcb.None? {
        return;
      }
      var p := pcb.value;
      Retouch(pcbs, counts, lists.owner, lists.Contents, p, pcbs[p].(state := state));
      pcbs := pcbs[p := pcbs[p].(state := state)];
    }

    /** `pcb_detach_child`: unlinks the child from its parent's children
        list, if linked, and clears `parent` and `ppid`; NULL is ignored. */
    method DetachChild(child: Option<nat>)
      requires Valid() && (child.Some? ==> child.value in pcbs)
      modifies this, lists
      ensures Valid() && counts == old(counts)
      ensures child.None? ==> pcbs == old(pcbs) && lists.Contents == old(lists.Contents)
      ensures child.Some? ==> Orphaned(old(pcbs), old(lists.owner), old(lists.Contents), pcbs, lists.Contents, child.value)
    {
      if child.None? {
        return;
      }
      var x := child.value;
      ghost var pcbs0, owner0, c0 := pcbs, lists.owner, lists.Contents;
      assert PcbPlaced(pcbs, counts, lists.owner, x);
      if lists.owner[Node(Sibling(x))].Some? {
        lists.OwnerHolds(Sibling(x));
      }
      UnlinkSibling(x);
      pcbs := pcbs[x := pcbs[x].(parent := None, ppid := 0)];
      DetachChildOk(pcbs0, counts, owner0, c0, x, pcbs, lists.owner, lists.Contents);
    }

    /** The list part of `pcb_detach_child`: `list_remove` of the sibling
        node of PCB `x` when it is linked. */
    method UnlinkSibling(x: nat)
      requires lists.Valid() && Node(Sibling(x)) in lists.owner
      modifies lists
      ensures lists.Valid()
      ensures old(lists.owner[Node(Sibling(x))]).None? ==>
                lists.owner == old(lists.owner) && lists.Contents == old(lists.Contents)
      ensures old(lists.owner[Node(Sibling(x))]).Some? ==> var l := old(lists.owner[Node(Sibling(x))].value);
                && lists.owner == old(lists.owner)[Node(Sibling(x)) := None]
                && lists.Contents == old(lists.Contents)[l := Without(old(lists.Contents[l]), Sibling(x))]
    {
      if lists.owner[Node(Sibling(x))].Some? {
        lists.OwnerHolds(Sibling(x));
      }
      if lists.IsLinked(Some(Sibling(x))) {
        lists.Remove(Some(Sibling(x)));
      }
    }

    /** `pcb_attach_child`: detaches the child, makes `parent` its parent
        with `ppid` its pid and appends it to `parent`'s children list;
        NULL for either is ignored. */
    method AttachChild(parent: Option<nat>, child: Option<nat>)
      requires Valid() && (parent.Some? ==> parent.value in pcbs) && (child.Some? ==> child.value in pcbs)
      modifies this, lists
      ensures Valid() && counts == old(counts)
      ensures parent.None? || child.None? ==> pcbs == old(pcbs) && lists.Contents == old(lists.Contents)
      ensures parent.Some? && child.Some? ==>
                Adopted(old(pcbs), old(lists.owner), old(lists.Contents), pcbs, lists.Contents, parent.value, child.value)
    {
      if parent.None? || child.None? {
        return;
      }
      var par, x := parent.value, child.value;
      ghost var pcbs0, owner0, c0 := pcbs, lists.owner, lists.Contents;
      DetachChild(child);
      ghost var pcbs1, c1 := pcbs, lists.Contents;
      Adopt(par, x);
      AdoptedAfter(pcbs0, owner0, c0, pcbs1, c1, par, x);
    }

    /** The second half of `pcb_attach_child`, for a PCB with no parent. */
    method Adopt(par: nat, x: nat)
      requires Valid() && par in pcbs && x in pcbs && pcbs[x].parent.None?
      modifies this, lists
      ensures Valid() && counts == old(counts) && Children(par) in old(lists.Contents)
      ensures var c := old(lists.Contents);
        && lists.Contents == c[Children(par) := c[Children(par)] + [Sibling(x)]]
        && pcbs == old(pcbs)[x := old(pcbs[x]).(parent := Some(par), ppid := old(pcbs[par].pid))]
    {
      ghost var pcbs0, owner0, c0 := pcbs, lists.owner, lists.Contents;
      AttachReady(pcbs0, counts, owner0, c0, par, x);
      pcbs := pcbs[x := pcbs[x].(parent := Some(par), ppid := pcbs[par].pid)];
      lists.PushBack(Some(Children(par)), Some(Sibling(x)));
      AttachChildOk(pcbs0, counts, owner0, c0, par, x, pcbs, lists.owner, lists.Contents);
    }
  }
}
