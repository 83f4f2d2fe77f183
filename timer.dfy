/** Kernel/drivers/time.c: the tick counter and the queue of sleeping
    processes the timer interrupt wakes.

    The sleeping queue is the sequence of its entries, in queue order, or
    `None` while `sleeping_queue` is NULL.  What the calls into the rest of
    the kernel decide is passed in: which pids `process_lookup` finds,
    which pid `scheduler_current` names, and whether `queue_create`,
    `mem_alloc` and the queue's own node allocation succeed.  What they
    do to other processes is handed back: the pids `timer_handler`
    unblocks, in the order it unblocks them, and whether `sleepTicks`
    blocks the current process. */
module Timer {
  import opened Common

  /** `SleepingProcess`: an `int32_t` pid and an `unsigned long` wake time. */
  datatype Sleeper = Sleeper(pid: int, wakeTime: nat)

  /** `process->wake_time <= ticks`. */
  predicate Due(e: Sleeper, now: nat) {
    e.wakeTime <= now
  }

  /** `ticks++` on an `unsigned long`. */
  function NextTick(t: nat): (r: nat)
    requires t < U64_LIMIT
    ensures r < U64_LIMIT
    ensures t < U64_LIMIT - 1 ==> r == t + 1
    ensures t == U64_LIMIT - 1 ==> r == 0
  {
    (t + 1) % U64_LIMIT
  }

  /** An `unsigned long` read back as an `int`: its low 32 bits, two's
      complement. */
  function ToInt32(x: nat): (r: int)
    ensures -0x8000_0000 <= r < 0x8000_0000
    ensures x < 0x8000_0000 ==> r == x
    ensures r % U32_LIMIT == x % U32_LIMIT
  {
    var low := x % U32_LIMIT;
    if low < 0x8000_0000 then low else low - U32_LIMIT
  }

  /** The entries still asleep at `now`, in queue order. */
  function Waiting(q: seq<Sleeper>, now: nat): (r: seq<Sleeper>)
    ensures |r| <= |q|
    decreases |q|
  {
    if |q| == 0 then []
    else
      var rest := Waiting(q[..|q| - 1], now);
      if Due(q[|q| - 1], now) then rest else rest + [q[|q| - 1]]
  }

  /** The pids of the due entries that `process_lookup` finds, in queue
      order: the processes `timer_handler` unblocks. */
  function WokenBy(q: seq<Sleeper>, now: nat, live: set<int>): (r: seq<int>)
    ensures |r| <= |q|
    decreases |q|
  {
    if |q| == 0 then []
    else
      var rest := WokenBy(q[..|q| - 1], now, live);
      var e := q[|q| - 1];
      if Due(e, now) && e.pid in live then rest + [e.pid] else rest
  }

  /** An entry stays asleep exactly when it is in the queue and not due. */
  lemma {:induction false} WaitingMembers(q: seq<Sleeper>, now: nat, e: Sleeper)
    ensures e in Waiting(q, now) <==> e in q && !Due(e, now)
    decreases |q|
  {
    if |q| > 0 {
      WaitingMembers(q[..|q| - 1], now, e);
      assert q == q[..|q| - 1] + [q[|q| - 1]];
    }
  }

  /** Filtering a queue filters each part of it: entries left asleep keep
      their relative order. */
  lemma {:induction false} WaitingAppend(a: seq<Sleeper>, b: seq<Sleeper>, now: nat)
    ensures Waiting(a + b, now) == Waiting(a, now) + Waiting(b, now)
    decreases |b|
  {
    if |b| == 0 {
      assert a + b == a;
    } else {
      WaitingAppend(a, b[..|b| - 1], now);
      assert (a + b)[..|a + b| - 1] == a + b[..|b| - 1];
    }
  }

  /** Nothing is removed exactly when nothing is due. */
  lemma {:induction false} WaitingAll(q: seq<Sleeper>, now: nat)
    ensures |Waiting(q, now)| == |q| <==> forall i :: 0 <= i < |q| ==> !Due(q[i], now)
    decreases |q|
  {
    if |q| > 0 {
      WaitingAll(q[..|q| - 1], now);
      assert forall i :: 0 <= i < |q| - 1 ==> q[..|q| - 1][i] == q[i];
    }
  }

  /** A pid is unblocked exactly when a due entry of the queue names it
      and the lookup finds it. */
  lemma {:induction false} WokenMembers(q: seq<Sleeper>, now: nat, live: set<int>, p: int)
    ensures p in WokenBy(q, now, live) <==> p in live && exists e :: e in q && Due(e, now) && e.pid == p
    decreases |q|
  {
    if |q| > 0 {
      WokenMembers(q[..|q| - 1], now, live, p);
      assert q == q[..|q| - 1] + [q[|q| - 1]];
    }
  }

  class TimerState {
    /** `ticks`, an `unsigned long`. */
    var ticks: nat
    /** `sleeping_queue`: its entries, or `None` while it is NULL. */
    var sleeping: Option<seq<Sleeper>>

    ghost predicate Valid()
      reads this
    {
      ticks < U64_LIMIT
    }

    /** The static initial state: no ticks, no queue. */
    constructor ()
      ensures Valid() && ticks == 0 && sleeping.None?
    {
      ticks := 0;
      sleeping := None;
    }

    /** `timer_handler`: one more tick, then every due entry whose pid the
        lookup finds is unblocked, in queue order, and every due entry is
        taken out of the queue; the rest stay, in order. */
    method TimerHandler(live: set<int>) returns (woken: seq<int>)
      requires Valid()
      modifies this
      ensures Valid() && ticks == NextTick(old(ticks))
      ensures old(sleeping).None? ==> sleeping.None? && woken == []
      ensures old(sleeping).Some? ==>
                && sleeping == Some(Waiting(old(sleeping).value, ticks))
                && woken == WokenBy(old(sleeping).value, ticks, live)
    {
      ticks := NextTick(ticks);
      woken := [];
      if sleeping.Some? && |sleeping.value| != 0 {
        var q := sleeping.value;
        var k := 0;
        while k < |q|
          invariant k <= |q|
          invariant woken == WokenBy(q[..k], ticks, live)
        {
          assert q[..k + 1][..k] == q[..k];
          var process := q[k];
          if process.wakeTime <= ticks {
            if process.pid in live {
              woken := woken + [process.pid];
            }
          }
          k := k + 1;
        }
        assert q[..k] == q;
        var kept := [];
        k := 0;
        while k < |q|
          invariant k <= |q|
          invariant kept == Waiting(q[..k], ticks)
        {
          assert q[..k + 1][..k] == q[..k];
          var process := q[k];
          if !(process.wakeTime <= ticks) {
            kept := kept + [process];
          }
          k := k + 1;
        }
        assert q[..k] == q;
        sleeping := Some(kept);
      }
    }

    /** `ticks_elapsed`: `ticks` returned as an `int`. */
    function TicksElapsed(): (r: int)
      reads this
      ensures ticks < 0x8000_0000 ==> r == ticks
      ensures r % U32_LIMIT == ticks % U32_LIMIT
    {
      ToInt32(ticks)
    }

    /** `seconds_elapsed`: whole seconds of ticks, as an `int`, for the
        tick rate `secondsToTicks`. */
    function SecondsElapsed(secondsToTicks: nat): (r: int)
      reads this
      requires secondsToTicks > 0
      ensures ticks / secondsToTicks < 0x8000_0000 ==>
                r * secondsToTicks <= ticks < (r + 1) * secondsToTicks
    {
      ToInt32(ticks / secondsToTicks)
    }

    /** `sleepTicks`: creates the queue if it is missing; with a current
        process and an entry allocated, queues the entry {its pid,
        `ticks + sleepT`} at the back and blocks the process.  Without a
        current process or an entry nothing is queued; when the push fails
        the entry is freed and the process is not blocked. */
    method SleepTicks(sleepT: nat, current: Option<int>, queueObtained: bool, entryObtained: bool,
                      nodeObtained: bool) returns (blocked: bool)
      requires Valid() && sleepT < U64_LIMIT
      modifies this
      ensures Valid() && ticks == old(ticks)
      ensures old(sleeping).Some? || !queueObtained ==> (sleeping.Some? <==> old(sleeping).Some?)
      ensures old(sleeping).None? && queueObtained ==> sleeping.Some?
      ensures var before := if old(sleeping).Some? then old(sleeping).value else [];
              if blocked then
                current.Some? && sleeping == Some(before + [Sleeper(current.value, (ticks + sleepT) % U64_LIMIT)])
              else sleeping.Some? ==> sleeping.value == before
      ensures blocked <==> current.Some? && entryObtained && nodeObtained
                           && (old(sleeping).Some? || queueObtained)
    {
      if sleeping.None? && queueObtained {
        sleeping := Some([]);
      }
      if current.None? {
        return false;
      }
      if !entryObtained {
        return false;
      }
      var process := Sleeper(current.value, (ticks + sleepT) % U64_LIMIT);
      if sleeping.None? || !nodeObtained {
        return false;
      }
      sleeping := Some(sleeping.value + [process]);
      return true;
    }

    /** `sleep`: `sleepTicks` of `seconds * SECONDS_TO_TICKS`, converted
        to `uint64_t`. */
    method Sleep(seconds: int, secondsToTicks: nat, current: Option<int>, queueObtained: bool,
                 entryObtained: bool, nodeObtained: bool) returns (blocked: bool)
      requires Valid() && -0x8000_0000 <= seconds * secondsToTicks < 0x8000_0000
      modifies this
      ensures Valid() && ticks == old(ticks)
      ensures var before := if old(sleeping).Some? then old(sleeping).value else [];
              var wake := (ticks + (seconds * secondsToTicks) % U64_LIMIT) % U64_LIMIT;
              if blocked then current.Some? && sleeping == Some(before + [Sleeper(current.value, wake)])
              else sleeping.Some? ==> sleeping.value == before
      ensures blocked <==> current.Some? && entryObtained && nodeObtained
                           && (old(sleeping).Some? || queueObtained)
    {
      blocked := SleepTicks((seconds * secondsToTicks) % U64_LIMIT, current, queueObtained,
                            entryObtained, nodeObtained);
    }
  }

  /** An entry `sleepTicks` queues at the back leaves the queue on the
      first tick at or past its wake time, and not before, whatever the
      entries ahead of it do. */
  lemma {:induction false} QueuedWakes(before: seq<Sleeper>, e: Sleeper, now: nat)
    ensures Waiting(before + [e], now) == Waiting(before, now) + (if e.wakeTime <= now then [] else [e])
  {
    WaitingAppend(before, [e], now);
    assert [e][..0] == [];
  }

  /** After a tick, nothing left asleep is due. */
  lemma NoneDueAfterTick(q: seq<Sleeper>, now: nat)
    ensures forall e :: e in Waiting(q, now) ==> e.wakeTime > now
  {
    forall e | e in Waiting(q, now)
      ensures e.wakeTime > now
    {
      WaitingMembers(q, now, e);
    }
  }
}
