/** Kernel/process/scheduler.c: the single scheduler state — the ready
    queue, the current and the idle PCB, the reschedule flag and the
    metrics.  The ready queue is the process queue `ready` of the PCB
    table, whose other queues and PCBs the rest of the kernel shares. */
module Scheduler {
  import opened Common
  import opened Process

  /** `SCHEDULER_DEFAULT_QUANTUM`. */
  const DEFAULT_QUANTUM: Byte := 4

  /** `scheduler_metrics_t`: two `uint64_t` counters. */
  datatype Metrics = Metrics(totalTicks: nat, contextSwitches: nat)

  /** `counter++` on a `uint64_t`: wraps to 0 after 2^64 - 1. */
  function Bump(counter: nat): (r: nat)
    requires counter < U64_LIMIT
    ensures r < U64_LIMIT
    ensures counter < U64_LIMIT - 1 ==> r == counter + 1 && r > counter
    ensures counter == U64_LIMIT - 1 ==> r == 0
  {
    (counter + 1) % U64_LIMIT
  }

  /** `n` increments of a `uint64_t` counter take it `n` steps forward
      modulo 2^64. */
  function BumpMany(counter: nat, n: nat): (r: nat)
    requires counter < U64_LIMIT
    ensures r < U64_LIMIT
  {
    if n == 0 then counter else Bump(BumpMany(counter, n - 1))
  }

  lemma {:induction false} BumpManyIsSum(counter: nat, n: nat)
    requires counter < U64_LIMIT
    ensures BumpMany(counter, n) == (counter + n) % U64_LIMIT
  {
    if n > 0 {
      BumpManyIsSum(counter, n - 1);
      var before := counter + n - 1;
      assert BumpMany(counter, n) == (before % U64_LIMIT + 1) % U64_LIMIT;
      ModSucc(before);
    }
  }

  lemma ModSucc(a: nat)
    ensures ((a % U64_LIMIT) + 1) % U64_LIMIT == (a + 1) % U64_LIMIT
  {
  }

  /** Until a counter reaches 2^64 it counts every bump: the metrics
      never go down before they wrap, and from 0 they equal the number of
      bumps. */
  lemma BumpManyGrows(counter: nat, n: nat)
    requires counter + n < U64_LIMIT
    ensures BumpMany(counter, n) == counter + n
    ensures BumpMany(counter, n) >= counter
  {
    BumpManyIsSum(counter, n);
  }

  /** `scheduler_handle_timer_interrupt`: hands back the stack frame it
      was given, so the interrupted context resumes. */
  function HandleTimerInterrupt(stackFrame: nat): (r: nat)
    ensures r == stackFrame
  {
    stackFrame
  }

  class SchedulerState {
    /** The PCBs and process queues; `ready_queue` is queue `ready` in it. */
    const table: ProcessTable
    const ready: nat
    var current: Option<nat>
    var idle: Option<nat>
    var initialized: bool
    var needReschedule: bool
    var baseQuantum: Byte
    var totalTicks: nat
    var contextSwitches: nat

    ghost predicate Valid()
      reads this, table, table.lists
    {
      && table.Valid()
      && (initialized ==> ready in table.counts)
      && totalTicks < U64_LIMIT && contextSwitches < U64_LIMIT
    }

    /** The static, zero-filled `scheduler_state` before `scheduler_init`. */
    constructor (table: ProcessTable, ready: nat)
      requires table.Valid()
      ensures Valid() && this.table == table && this.ready == ready
      ensures !initialized && !needReschedule && current.None? && idle.None?
      ensures baseQuantum == 0 && totalTicks == 0 && contextSwitches == 0
    {
      this.table, this.ready := table, ready;
      current, idle := None, None;
      initialized, needReschedule := false, false;
      baseQuantum, totalTicks, contextSwitches := 0, 0, 0;
    }

    /** `scheduler_init`: an empty ready queue, no current or idle PCB,
        the default quantum and zeroed metrics.  The ready queue must not
        hold PCBs when it is re-initialised. */
    method Init()
      requires Valid() && (ready in table.counts ==> table.counts[ready] == 0)
      modifies this, table, table.lists
      ensures Valid() && initialized && !needReschedule && current.None? && idle.None?
      ensures baseQuantum == DEFAULT_QUANTUM && totalTicks == 0 && contextSwitches == 0
      ensures table.pcbs == old(table.pcbs) && table.counts == old(table.counts)[ready := 0]
      ensures forall k: nat :: k < PRIORITY_LEVELS ==> LevelOf(table.lists.Contents, ready, k) == []
      ensures Urgent(table.lists.Contents, ready).None? && table.Size(Some(ready)) == 0
      ensures forall l :: l in old(table.lists.Contents) ==>
                l in table.lists.Contents && table.lists.Contents[l] == old(table.lists.Contents[l])
    {
      table.QueueInit(Some(ready));
      current := None;
      idle := None;
      initialized := true;
      needReschedule := false;
      baseQuantum := DEFAULT_QUANTUM;
      totalTicks := 0;
      contextSwitches := 0;
    }

    /** `scheduler_is_initialized`. */
    function IsInitialized(): (r: bool)
      reads this
      ensures r <==> initialized
    {
      initialized
    }

    /** `scheduler_set_idle_process`: stored as given, NULL included. */
    method SetIdleProcess(pcb: Option<nat>)
      modifies this
      ensures idle == pcb
      ensures current == old(current) && initialized == old(initialized) && needReschedule == old(needReschedule)
      ensures baseQuantum == old(baseQuantum) && totalTicks == old(totalTicks) && contextSwitches == old(contextSwitches)
    {
      idle := pcb;
    }

    /** `scheduler_current`. */
    function Current(): (r: Option<nat>)
      reads this
      ensures r == current
    {
      current
    }

    /** `scheduler_set_current`: once initialised, counts a context switch
        exactly when the PCB changes, makes it current and RUNNING and
        clears the reschedule flag; before that, nothing happens. */
    method SetCurrent(pcb: Option<nat>)
      requires Valid() && (pcb.Some? ==> pcb.value in table.pcbs)
      modifies this, table
      ensures Valid() && table.counts == old(table.counts) && table.lists.Contents == old(table.lists.Contents)
      ensures idle == old(idle) && initialized == old(initialized) && baseQuantum == old(baseQuantum)
      ensures totalTicks == old(totalTicks)
      ensures !initialized ==>
                current == old(current) && needReschedule == old(needReschedule)
                && contextSwitches == old(contextSwitches) && table.pcbs == old(table.pcbs)
      ensures initialized ==> current == pcb && !needReschedule
      ensures initialized ==> contextSwitches == if old(current) != pcb then Bump(old(contextSwitches)) else old(contextSwitches)
      ensures initialized && pcb.None? ==> table.pcbs == old(table.pcbs)
      ensures initialized && pcb.Some? ==>
                table.pcbs == old(table.pcbs)[pcb.value := old(table.pcbs[pcb.value]).(state := Running)]
    {
      if !initialized {
        return;
      }
      if current != pcb {
        contextSwitches := Bump(contextSwitches);
      }
      current := pcb;
      needReschedule := false;
      if pcb.Some? {
        table.SetState(pcb, Running);
      }
    }

    /** `scheduler_enqueue_ready`: once initialised, marks the PCB READY
        and pushes it at the back of its level of the ready queue, out of
        any queue it was in; otherwise, or for NULL, nothing happens. */
    method EnqueueReady(pcb: Option<nat>)
      requires Valid() && (pcb.Some? ==> pcb.value in table.pcbs)
      modifies table, table.lists
      ensures Valid()
      ensures !initialized || pcb.None? ==>
                table.pcbs == old(table.pcbs) && table.counts == old(table.counts)
                && table.lists.Contents == old(table.lists.Contents)
      ensures initialized && pcb.Some? ==> var p := pcb.value;
                Enqueued(old(table.pcbs)[p := old(table.pcbs[p]).(state := Ready)], old(table.counts),
                         old(table.lists.owner), old(table.lists.Contents),
                         table.pcbs, table.counts, table.lists.Contents, ready, p, false)
    {
      if !initialized || pcb.None? {
        return;
      }
      table.SetState(pcb, Ready);
      table.Push(Some(ready), pcb);
    }

    /** `scheduler_enqueue_ready_front`: as `EnqueueReady`, at the front
        of the level. */
    method EnqueueReadyFront(pcb: Option<nat>)
      requires Valid() && (pcb.Some? ==> pcb.value in table.pcbs)
      modifies table, table.lists
      ensures Valid()
      ensures !initialized || pcb.None? ==>
                table.pcbs == old(table.pcbs) && table.counts == old(table.counts)
                && table.lists.Contents == old(table.lists.Contents)
      ensures initialized && pcb.Some? ==> var p := pcb.value;
                Enqueued(old(table.pcbs)[p := old(table.pcbs[p]).(state := Ready)], old(table.counts),
                         old(table.lists.owner), old(table.lists.Contents),
                         table.pcbs, table.counts, table.lists.Contents, ready, p, true)
    {
      if !initialized || pcb.None? {
        return;
      }
      table.SetState(pcb, Ready);
      table.PushFront(Some(ready), pcb);
    }

    /** `scheduler_pick_next`: once initialised, pops the most urgent ready
        PCB, or hands back the idle PCB (possibly NULL) and leaves the
        queue alone when none is ready; NULL before initialisation. */
    method PickNext() returns (r: Option<nat>)
      requires Valid()
      modifies table, table.lists
      ensures Valid()
      ensures !initialized ==> r.None?
      ensures initialized ==> var u := Urgent(old(table.lists.Contents), ready);
                r == if u.Some? then u else idle
      ensures !initialized || Urgent(old(table.lists.Contents), ready).None? ==>
                table.pcbs == old(table.pcbs) && table.counts == old(table.counts)
                && table.lists.Contents == old(table.lists.Contents)
      ensures initialized && Urgent(old(table.lists.Contents), ready).Some? ==>
                PoppedFront(old(table.pcbs), old(table.counts), old(table.lists.Contents),
                            table.pcbs, table.counts, table.lists.Contents,
                            ready, old(UrgentLevel(table.lists.Contents, ready, 0)), r.value)
    {
      if !initialized {
        return None;
      }
      r := table.Pop(Some(ready));
      if r.None? {
        r := idle;
      }
    }

    /** `scheduler_has_ready`: a PCB waits in some level of the ready
        queue; false before initialisation. */
    function HasReady(): (r: bool)
      reads this, table, table.lists
      requires Valid()
      ensures r <==> initialized && Urgent(table.lists.Contents, ready).Some?
      ensures r <==> initialized && exists k: nat :: k < PRIORITY_LEVELS && LevelOf(table.lists.Contents, ready, k) != []
    {
      initialized && !table.IsEmpty(Some(ready))
    }

    /** `scheduler_on_tick`: one more tick once initialised. */
    method OnTick()
      requires Valid()
      modifies this
      ensures Valid()
      ensures totalTicks == if initialized then Bump(old(totalTicks)) else old(totalTicks)
      ensures current == old(current) && idle == old(idle) && initialized == old(initialized)
      ensures needReschedule == old(needReschedule) && baseQuantum == old(baseQuantum)
      ensures contextSwitches == old(contextSwitches)
    {
      if !initialized {
        return;
      }
      totalTicks := Bump(totalTicks);
    }

    /** `n` timer ticks in a row, each one `OnTick`: once initialised the
        tick count moves `n` steps modulo 2^64, so it grows by exactly `n`
        until it wraps; nothing else changes. */
    method OnTicks(n: nat)
      requires Valid()
      modifies this
      ensures Valid()
      ensures totalTicks == if initialized then BumpMany(old(totalTicks), n) else old(totalTicks)
      ensures initialized ==> totalTicks == (old(totalTicks) + n) % U64_LIMIT
      ensures initialized && old(totalTicks) + n < U64_LIMIT ==> totalTicks == old(totalTicks) + n
      ensures current == old(current) && idle == old(idle) && initialized == old(initialized)
      ensures needReschedule == old(needReschedule) && baseQuantum == old(baseQuantum)
      ensures contextSwitches == old(contextSwitches)
    {
      var k := 0;
      while k < n
        invariant k <= n && Valid()
        invariant totalTicks == if initialized then BumpMany(old(totalTicks), k) else old(totalTicks)
        invariant current == old(current) && idle == old(idle) && initialized == old(initialized)
        invariant needReschedule == old(needReschedule) && baseQuantum == old(baseQuantum)
        invariant contextSwitches == old(contextSwitches)
      {
        OnTick();
        k := k + 1;
      }
      if initialized {
        BumpManyIsSum(old(totalTicks), n);
        if old(totalTicks) + n < U64_LIMIT {
          BumpManyGrows(old(totalTicks), n);
        }
      }
    }

    /** `scheduler_needs_reschedule`: the flag, false before initialisation. */
    function NeedsReschedule(): (r: bool)
      reads this
      ensures r <==> initialized && needReschedule
      ensures !initialized ==> !r
    {
      if !initialized then false else needReschedule
    }

    /** `scheduler_ack_reschedule`: clears the flag, initialised or not. */
    method AckReschedule()
      requires Valid()
      modifies this
      ensures Valid() && !needReschedule && !NeedsReschedule()
      ensures current == old(current) && idle == old(idle) && initialized == old(initialized)
      ensures baseQuantum == old(baseQuantum) && totalTicks == old(totalTicks) && contextSwitches == old(contextSwitches)
    {
      needReschedule := false;
    }

    /** `scheduler_get_metrics`. */
    function GetMetrics(): (r: Metrics)
      reads this, table, table.lists
      requires Valid()
      ensures r.totalTicks == totalTicks && r.contextSwitches == contextSwitches
      ensures r.totalTicks < U64_LIMIT && r.contextSwitches < U64_LIMIT
    {
      Metrics(totalTicks, contextSwitches)
    }
  }
}
