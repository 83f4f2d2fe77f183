/** Kernel/pipes.c: the pipe table and each pipe's ring buffer.

    Every call is one single-threaded step.  The semaphores `can_read`,
    `can_write` and `mutex` are abstract: where the C would wait on
    `can_read` or `can_write` the step ends with `WouldBlock`, and what the
    semaphore calls return is passed in.  `mutex` is always available, and
    the forced reschedule after a byte reaches a waiting reader is a yield
    the step does not stop at.  `PROCESS_FIRST_PID` and
    `PROCESS_MAX_PROCESSES` are not defined in the shown files and are
    fields of the table. */
module Pipes {
  import opened Common

  const MAX_PIPES: nat := 100
  const PIPE_BUFFER_SIZE: nat := 16 * 1024
  const STDIN: nat := 0
  const STDOUT: nat := 1
  const STDERR: nat := 2

  /** What `read_pipe` and `write_pipe` come to: -1, a byte count, or a
      wait on `can_read` / `can_write` after `n` bytes. */
  datatype IoResult = Failed | Done(n: nat) | WouldBlock(n: nat)

  function Min(a: nat, b: nat): nat
  {
    if a <= b then a else b
  }

  /** `NEXT_BUFFER_IDX`. */
  function NextIndex(idx: nat): (r: nat)
    ensures r < PIPE_BUFFER_SIZE
    ensures r == (idx + 1) % PIPE_BUFFER_SIZE
  {
    (idx + 1) % PIPE_BUFFER_SIZE
  }

  /** `uint32_t` increment. */
  function Bump32(x: nat): (r: nat)
    requires x < U32_LIMIT
    ensures r < U32_LIMIT && (x + 1 < U32_LIMIT ==> r == x + 1)
  {
    (x + 1) % U32_LIMIT
  }

  /** The `n` bytes of the ring `buf` starting at slot `r`, in order. */
  ghost function RingView(buf: seq<Byte>, r: nat, n: nat): (s: seq<Byte>)
    requires |buf| == PIPE_BUFFER_SIZE
    ensures |s| == n
  {
    seq(n, i requires 0 <= i < n => buf[(r + i) % PIPE_BUFFER_SIZE])
  }

  lemma ModShift(a: nat, i: nat)
    ensures (a % PIPE_BUFFER_SIZE + i) % PIPE_BUFFER_SIZE == (a + i) % PIPE_BUFFER_SIZE
  {
  }

  lemma ModApart(a: nat, i: nat, n: nat)
    requires i < n < PIPE_BUFFER_SIZE
    ensures (a + i) % PIPE_BUFFER_SIZE != (a + n) % PIPE_BUFFER_SIZE
  {
  }

  /** Storing a byte at the slot after the last one and counting it
      appends it to the ring's contents. */
  lemma RingPush(buf: seq<Byte>, r: nat, n: nat, b: Byte)
    requires |buf| == PIPE_BUFFER_SIZE && n < PIPE_BUFFER_SIZE
    ensures RingView(buf[(r + n) % PIPE_BUFFER_SIZE := b], r, n + 1) == RingView(buf, r, n) + [b]
  {
    var w := (r + n) % PIPE_BUFFER_SIZE;
    forall i | 0 <= i < n
      ensures RingView(buf[w := b], r, n + 1)[i] == RingView(buf, r, n)[i]
    {
      ModApart(r, i, n);
    }
  }

  /** Advancing the read slot and uncounting a byte drops the first byte
      of the ring's contents. */
  lemma RingPop(buf: seq<Byte>, r: nat, n: nat)
    requires |buf| == PIPE_BUFFER_SIZE && n > 0
    ensures RingView(buf, (r + 1) % PIPE_BUFFER_SIZE, n - 1) == RingView(buf, r, n)[1..]
  {
    var s, s' := RingView(buf, r, n), RingView(buf, (r + 1) % PIPE_BUFFER_SIZE, n - 1);
    forall i | 0 <= i < |s'|
      ensures s'[i] == s[1..][i]
    {
      ModShift(r + 1, i);
    }
  }

  /** A ring with nothing counted holds nothing, wherever its slots point. */
  lemma RingEmpty(buf: seq<Byte>, r: nat)
    requires |buf| == PIPE_BUFFER_SIZE
    ensures RingView(buf, r, 0) == []
  {
  }

  /** The flags `close_pipe` computes from the attach count. */
  datatype CloseDecision = CloseDecision(releaseWaiters: bool, shouldDelete: bool)

  function IsStd(id: nat): bool
  {
    id == STDIN || id == STDOUT || id == STDERR
  }

  /** `close_pipe`'s rule: waiters are released on a pipe other than
      0/1/2 with at most one attachment; the pipe goes when nobody is
      attached, or a 0/1/2 pipe has one attachment. */
  function Decide(id: nat, attached: Byte): (d: CloseDecision)
  {
    CloseDecision(!IsStd(id) && attached <= 1, attached == 0 || (IsStd(id) && attached == 1))
  }

  lemma DecideRule(id: nat, attached: Byte)
    ensures Decide(id, attached).shouldDelete ==> attached <= 1
    ensures IsStd(id) ==> !Decide(id, attached).releaseWaiters
    ensures !IsStd(id) ==> (Decide(id, attached).shouldDelete <==> attached == 0)
    ensures !IsStd(id) && Decide(id, attached).shouldDelete ==> Decide(id, attached).releaseWaiters
    ensures attached >= 2 ==> Decide(id, attached) == CloseDecision(false, false)
    ensures Decide(id, 1) == CloseDecision(!IsStd(id), IsStd(id))
    ensures Decide(id, 0) == CloseDecision(!IsStd(id), true)
  {
  }

  /** `struct pipe`.  `Contents` is the bytes written and not yet read,
      oldest first. */
  class Pipe {
    var id: Byte
    const buffer: array<Byte>
    var readIdx: nat
    var writeIdx: nat
    var dataCount: nat
    var attachedCount: Byte
    var waitingReaders: nat
    var waitingWriters: nat
    ghost var Contents: seq<Byte>

    ghost predicate Valid()
      reads this, buffer
    {
      && buffer.Length == PIPE_BUFFER_SIZE
      && readIdx < PIPE_BUFFER_SIZE && writeIdx < PIPE_BUFFER_SIZE && dataCount <= PIPE_BUFFER_SIZE
      && writeIdx == (readIdx + dataCount) % PIPE_BUFFER_SIZE
      && waitingReaders < U32_LIMIT && waitingWriters < U32_LIMIT
      && Contents == RingView(buffer[..], readIdx, dataCount)
    }

    /** The field stores of `create_pipe` on a fresh block. */
    constructor (id: Byte)
      ensures Valid() && fresh(buffer) && this.id == id && Contents == []
      ensures readIdx == 0 && writeIdx == 0 && dataCount == 0
      ensures attachedCount == 0 && waitingReaders == 0 && waitingWriters == 0
    {
      this.id := id;
      buffer := new Byte[PIPE_BUFFER_SIZE](_ => 0);
      readIdx, writeIdx, dataCount := 0, 0, 0;
      attachedCount, waitingReaders, waitingWriters := 0, 0, 0;
      Contents := [];
    }

    /** One pass of `read_pipe`'s loop that finds data: the oldest byte. */
    method TakeByte() returns (b: Byte)
      requires Valid() && dataCount > 0
      modifies this
      ensures Valid() && |old(Contents)| > 0 && b == old(Contents)[0] && Contents == old(Contents)[1..]
      ensures dataCount == old(dataCount) - 1 && readIdx == NextIndex(old(readIdx)) && writeIdx == old(writeIdx)
      ensures id == old(id) && attachedCount == old(attachedCount)
      ensures waitingReaders == old(waitingReaders) && waitingWriters == old(waitingWriters)
    {
      RingPop(buffer[..], readIdx, dataCount);
      ModShift(readIdx + 1, dataCount - 1);
      assert (readIdx + 0) % PIPE_BUFFER_SIZE == readIdx;
      b := buffer[readIdx];
      readIdx := NextIndex(readIdx);
      dataCount := dataCount - 1;
      Contents := Contents[1..];
    }

    /** One pass of `write_pipe`'s loop with room: `b` becomes the newest byte. */
    method PutByte(b: Byte)
      requires Valid() && dataCount < PIPE_BUFFER_SIZE
      modifies this, buffer
      ensures Valid() && Contents == old(Contents) + [b]
      ensures dataCount == old(dataCount) + 1 && writeIdx == NextIndex(old(writeIdx)) && readIdx == old(readIdx)
      ensures id == old(id) && attachedCount == old(attachedCount)
      ensures waitingReaders == old(waitingReaders) && waitingWriters == old(waitingWriters)
    {
      RingPush(buffer[..], readIdx, dataCount, b);
      ModShift(readIdx + dataCount, 1);
      buffer[writeIdx] := b;
      writeIdx := NextIndex(writeIdx);
      dataCount := dataCount + 1;
      Contents := Contents + [b];
    }

    /** The loop of `read_pipe`: copies bytes out oldest first until
        `bytes` are read; on an empty ring it stops when at most one
        party is attached and otherwise waits for a writer. */
    method Read(dest: array<Byte>, bytes: nat) returns (r: IoResult)
      requires Valid() && bytes <= dest.Length && dest != buffer
      modifies this, dest
      ensures Valid() && id == old(id) && attachedCount == old(attachedCount) && waitingWriters == old(waitingWriters)
      ensures var n := Min(bytes, |old(Contents)|);
        && r == (if n == bytes || attachedCount <= 1 then Done(n) else WouldBlock(n))
        && dest[..n] == old(Contents)[..n] && dest[n..] == old(dest[n..])
        && Contents == old(Contents)[n..]
      ensures waitingReaders == if r.WouldBlock? then Bump32(old(waitingReaders)) else old(waitingReaders)
    {
      var readBytes := 0;
      while readBytes < bytes
        invariant Valid() && readBytes <= bytes && readBytes <= |old(Contents)|
        invariant Contents == old(Contents)[readBytes..]
        invariant dest[..readBytes] == old(Contents)[..readBytes] && dest[readBytes..] == old(dest[readBytes..])
        invariant id == old(id) && attachedCount == old(attachedCount)
        invariant waitingReaders == old(waitingReaders) && waitingWriters == old(waitingWriters)
      {
        if dataCount == 0 {
          if attachedCount <= 1 {
            break;
          }
          waitingReaders := Bump32(waitingReaders);
          return WouldBlock(readBytes);
        }
        var b := TakeByte();
        dest[readBytes] := b;
        readBytes := readBytes + 1;
      }
      return Done(readBytes);
    }

    /** The loop of `write_pipe`: copies `src[..bytes]` in, waiting for a
        reader whenever the ring is full. */
    method Write(src: array<Byte>, bytes: nat) returns (r: IoResult)
      requires Valid() && bytes <= src.Length && src != buffer
      modifies this, buffer
      ensures Valid() && id == old(id) && attachedCount == old(attachedCount) && waitingReaders == old(waitingReaders)
      ensures var n := Min(bytes, PIPE_BUFFER_SIZE - |old(Contents)|);
        && r == (if n == bytes then Done(n) else WouldBlock(n))
        && Contents == old(Contents) + src[..n]
      ensures waitingWriters == if r.WouldBlock? then Bump32(old(waitingWriters)) else old(waitingWriters)
    {
      var writtenBytes := 0;
      while writtenBytes < bytes
        invariant Valid() && writtenBytes <= bytes && |old(Contents)| + writtenBytes <= PIPE_BUFFER_SIZE
        invariant Contents == old(Contents) + src[..writtenBytes]
        invariant id == old(id) && attachedCount == old(attachedCount)
        invariant waitingReaders == old(waitingReaders) && waitingWriters == old(waitingWriters)
      {
        if dataCount == PIPE_BUFFER_SIZE {
          waitingWriters := Bump32(waitingWriters);
          return WouldBlock(writtenBytes);
        }
        PutByte(src[writtenBytes]);
        assert src[..writtenBytes + 1] == src[..writtenBytes] + [src[writtenBytes]];
        writtenBytes := writtenBytes + 1;
      }
      return Done(writtenBytes);
    }
  }

  /** `pipes[]` and `next_pipe_id`.  A slot holds a pipe or NULL. */
  class PipeTable {
    const slots: array<Option<Pipe>>
    var nextPipeId: Byte
    /** `PROCESS_FIRST_PID` and `PROCESS_MAX_PROCESSES`. */
    const firstPid: int
    const maxProcesses: int

    /** The pipes in the table and their ring buffers. */
    ghost function Objects(): set<object>
      reads slots
    {
      (set i | 0 <= i < slots.Length && slots[i].Some? :: slots[i].value as object)
      + (set i | 0 <= i < slots.Length && slots[i].Some? :: slots[i].value.buffer as object)
    }

    /** What `pipe`'s operations may change: the pipe in slot `id` and its ring. */
    ghost function Slot(id: int): set<object>
      reads slots
    {
      if 0 <= id < slots.Length && slots[id].Some? then {slots[id].value, slots[id].value.buffer} else {}
    }

    ghost predicate Valid()
      reads this, slots, Objects()
    {
      && slots.Length == MAX_PIPES
      && (forall i :: 0 <= i < slots.Length && slots[i].Some? ==> slots[i].value.Valid())
      && (forall i, j ::
            (0 <= i < slots.Length && 0 <= j < slots.Length && slots[i].Some? && slots[j].Some?
             && slots[i].value.buffer == slots[j].value.buffer) ==> slots[i].value == slots[j].value)
    }

    /** `Live(id)`: slot `id` is in range and holds a pipe. */
    predicate Live(id: int)
      reads slots
    {
      0 <= id < slots.Length && slots[id].Some?
    }

    /** The zero-filled static table: every slot NULL, `next_pipe_id` 0. */
    constructor (firstPid: int, maxProcesses: int)
      ensures Valid() && fresh(slots) && nextPipeId == 0
      ensures forall i :: 0 <= i < slots.Length ==> slots[i].None?
      ensures this.firstPid == firstPid && this.maxProcesses == maxProcesses
    {
      slots := new Option<Pipe>[MAX_PIPES](_ => None);
      nextPipeId := 0;
      this.firstPid, this.maxProcesses := firstPid, maxProcesses;
    }

    /** `create_pipe`: NULL when the pipe block or any of its three
        semaphores cannot be had (`gotBlock`, `canRead`, `canWrite` and
        `mutex` say which succeed), else a fresh empty pipe numbered
        `next_pipe_id`. */
    method CreatePipe(gotBlock: bool, canRead: bool, canWrite: bool, mutex: bool) returns (p: Option<Pipe>)
      ensures p.Some? <==> gotBlock && canRead && canWrite && mutex
      ensures p.Some? ==> var q := p.value;
        && fresh(q) && fresh(q.buffer) && q.Valid() && q.id == nextPipeId && q.Contents == []
        && q.readIdx == 0 && q.writeIdx == 0 && q.dataCount == 0
        && q.attachedCount == 0 && q.waitingReaders == 0 && q.waitingWriters == 0
    {
      if !gotBlock || !canRead || !canWrite || !mutex {
        return None;
      }
      var q := new Pipe(nextPipeId);
      return Some(q);
    }

    /** `open_pipe`: -1 once `next_pipe_id` reaches `MAX_PIPES` or when
        `create_pipe` fails; otherwise the new pipe takes slot
        `next_pipe_id`, which is returned and then advanced. */
    method OpenPipe(gotBlock: bool, canRead: bool, canWrite: bool, mutex: bool) returns (r: int)
      requires Valid()
      modifies this, slots
      ensures Valid()
      ensures old(nextPipeId) >= MAX_PIPES || !(gotBlock && canRead && canWrite && mutex) ==>
                r == -1 && nextPipeId == old(nextPipeId) && slots[..] == old(slots[..])
      ensures old(nextPipeId) < MAX_PIPES && gotBlock && canRead && canWrite && mutex ==>
                && r == old(nextPipeId) && nextPipeId == old(nextPipeId) + 1
                && slots[r].Some? && fresh(slots[r].value) && slots[r].value.Contents == []
                && slots[r].value.attachedCount == 0 && slots[r].value.id == r
                && forall i :: 0 <= i < slots.Length && i != r ==> slots[i] == old(slots[i])
    {
      if nextPipeId >= MAX_PIPES {
        return -1;
      }
      var p := CreatePipe(gotBlock, canRead, canWrite, mutex);
      if p.None? {
        return -1;
      }
      slots[nextPipeId] := p;
      r := nextPipeId;
      nextPipeId := nextPipeId + 1;
    }

    /** `attach_to_pipe`: one more attachment (the `uint8_t` count wraps
        at 256); -1 for an id out of range or an empty slot. */
    method AttachToPipe(id: Byte) returns (r: int)
      requires Valid()
      modifies Slot(id)
      ensures Valid()
      ensures !Live(id) ==> r == -1
      ensures Live(id) ==> var p := slots[id].value;
        && r == 0 && p.attachedCount == (old(p.attachedCount) + 1) % U8_LIMIT
        && p.id == old(p.id) && p.Contents == old(p.Contents) && p.dataCount == old(p.dataCount)
        && p.waitingReaders == old(p.waitingReaders) && p.waitingWriters == old(p.waitingWriters)
    {
      if id >= MAX_PIPES || slots[id].None? {
        return -1;
      }
      var p := slots[id].value;
      p.attachedCount := (p.attachedCount + 1) % U8_LIMIT;
      return 0;
    }

    /** `read_pipe`: -1 for a NULL buffer, 0 for no bytes, -1 for an id
        out of range or an empty slot, checked in that order; otherwise
        the pipe's read loop. */
    method ReadPipe(id: Byte, dest: array?<Byte>, bytes: nat) returns (r: IoResult)
      requires Valid() && bytes < U64_LIMIT
      requires dest != null ==> bytes <= dest.Length && dest !in Objects()
      modifies Slot(id), dest
      ensures Valid()
      ensures dest == null ==> r == Failed
      ensures dest != null && bytes == 0 ==> r == Done(0)
      ensures dest != null && bytes > 0 && !Live(id) ==> r == Failed
      ensures dest != null && bytes > 0 && Live(id) ==> var p := slots[id].value;
        var n := Min(bytes, |old(p.Contents)|);
        && r == (if n == bytes || p.attachedCount <= 1 then Done(n) else WouldBlock(n))
        && dest[..n] == old(p.Contents)[..n] && dest[n..] == old(dest[n..])
        && p.Contents == old(p.Contents)[n..] && p.attachedCount == old(p.attachedCount)
        && p.id == old(p.id) && p.waitingWriters == old(p.waitingWriters)
        && p.waitingReaders == if r.WouldBlock? then Bump32(old(p.waitingReaders)) else old(p.waitingReaders)
    {
      if dest == null {
        return Failed;
      }
      if bytes == 0 {
        return Done(0);
      }
      if id >= MAX_PIPES || slots[id].None? {
        return Failed;
      }
      var p := slots[id].value;
      r := p.Read(dest, bytes);
    }

    /** `write_pipe`: the same checks as `read_pipe`, then the pipe's
        write loop. */
    method WritePipe(id: Byte, src: array?<Byte>, bytes: nat) returns (r: IoResult)
      requires Valid() && bytes < U64_LIMIT
      requires src != null ==> bytes <= src.Length && src !in Objects()
      modifies Slot(id)
      ensures Valid()
      ensures src == null ==> r == Failed
      ensures src != null && bytes == 0 ==> r == Done(0)
      ensures src != null && bytes > 0 && !Live(id) ==> r == Failed
      ensures src != null && bytes > 0 && Live(id) ==> var p := slots[id].value;
        var n := Min(bytes, PIPE_BUFFER_SIZE - |old(p.Contents)|);
        && r == (if n == bytes then Done(n) else WouldBlock(n))
        && p.Contents == old(p.Contents) + src[..n] && p.attachedCount == old(p.attachedCount)
        && p.id == old(p.id) && p.waitingReaders == old(p.waitingReaders)
        && p.waitingWriters == if r.WouldBlock? then Bump32(old(p.waitingWriters)) else old(p.waitingWriters)
    {
      if src == null {
        return Failed;
      }
      if bytes == 0 {
        return Done(0);
      }
      if id >= MAX_PIPES || slots[id].None? {
        return Failed;
      }
      var p := slots[id].value;
      r := p.Write(src, bytes);
    }

    /** `unattach_from_pipe`: one attachment fewer, never below 0; nothing
        for an id out of range, an empty slot or a pid outside
        [PROCESS_FIRST_PID, PROCESS_FIRST_PID + PROCESS_MAX_PROCESSES).
        Its two `sem_remove_process` calls, which take the pid off the
        waiting lists of `can_read` and `can_write`, belong to the
        semaphores, which are not part of this model; the waiting counts
        kept here are left as they are. */
    method UnattachFromPipe(id: Byte, pid: int)
      requires Valid()
      modifies Slot(id)
      ensures Valid()
      ensures Live(id) ==> var p := slots[id].value;
        && p.Contents == old(p.Contents) && p.dataCount == old(p.dataCount)
        && p.id == old(p.id) && p.waitingReaders == old(p.waitingReaders) && p.waitingWriters == old(p.waitingWriters)
        && p.attachedCount == if pid < firstPid || pid >= firstPid + maxProcesses || old(p.attachedCount) == 0
                              then old(p.attachedCount) else old(p.attachedCount) - 1
    {
      if id >= MAX_PIPES || slots[id].None? || pid < firstPid || pid >= firstPid + maxProcesses {
        return;
      }
      var p := slots[id].value;
      if p.attachedCount > 0 {
        p.attachedCount := p.attachedCount - 1;
      }
    }

    /** `destroy_pipe`: the slot becomes NULL (the semaphores and the
        block are released); NULL is ignored. */
    method DestroyPipe(id: Byte, pipe: Option<Pipe>)
      requires Valid() && id < MAX_PIPES
      modifies slots
      ensures Valid()
      ensures slots[id] == if pipe.None? then old(slots[id]) else None
      ensures forall i :: 0 <= i < slots.Length && i != id ==> slots[i] == old(slots[i])
    {
      if pipe.None? {
        return;
      }
      slots[id] := None;
    }

    /** `close_pipe`: -1 for an id out of range, an empty slot or a failed
        wait on the mutex (`mutexResult`, what `sem_wait` returns).
        Otherwise 0, after posting `can_read` once per waiting reader and
        `can_write` once per waiting writer (`sem_waiting_count` of each,
        passed in) when `Decide` releases waiters, and destroying the pipe
        when `Decide` deletes it. */
    method ClosePipe(id: Byte, mutexResult: int, readersWaiting: int, writersWaiting: int)
      returns (r: int, readerPosts: nat, writerPosts: nat)
      requires Valid()
      modifies slots
      ensures Valid()
      ensures !old(Live(id)) || mutexResult == -1 ==>
                r == -1 && readerPosts == 0 && writerPosts == 0 && slots[..] == old(slots[..])
      ensures old(Live(id)) && mutexResult != -1 ==> var d := Decide(id, old(slots[id].value.attachedCount));
        && r == 0
        && readerPosts == (if d.releaseWaiters && readersWaiting > 0 then readersWaiting else 0)
        && writerPosts == (if d.releaseWaiters && writersWaiting > 0 then writersWaiting else 0)
        && slots[id] == (if d.shouldDelete then None else old(slots[id]))
        && forall i :: 0 <= i < slots.Length && i != id ==> slots[i] == old(slots[i])
    {
      if id >= MAX_PIPES || slots[id].None? {
        return -1, 0, 0;
      }
      var pipe := slots[id].value;
      var isStd := id == STDIN || id == STDOUT || id == STDERR;
      if mutexResult == -1 {
        return -1, 0, 0;
      }
      var attached := pipe.attachedCount;
      var releaseWaiters := !isStd && attached <= 1;
      var shouldDelete := attached == 0 || (isStd && attached == 1);
      var readersToWake := if releaseWaiters then readersWaiting else 0;
      var writersToWake := if releaseWaiters then writersWaiting else 0;
      readerPosts := Posts(readersToWake);
      writerPosts := Posts(writersToWake);
      if shouldDelete {
        DestroyPipe(id, Some(pipe));
      }
      r := 0;
    }

    /** `reset_pipes`: destroys every pipe and restarts ids at 0. */
    method ResetPipes()
      requires Valid()
      modifies this, slots
      ensures Valid() && nextPipeId == 0
      ensures forall i :: 0 <= i < slots.Length ==> slots[i].None?
    {
      for i := 0 to MAX_PIPES
        invariant Valid()
        invariant forall j :: 0 <= j < i ==> slots[j].None?
      {
        if slots[i].Some? {
          DestroyPipe(i, slots[i]);
        }
      }
      nextPipeId := 0;
    }

    /** `set_next_id`: the next `open_pipe` uses slot `id`, replacing what
        it holds; ids from `MAX_PIPES` on make `open_pipe` fail. */
    method SetNextId(id: Byte)
      requires Valid()
      modifies this
      ensures Valid() && nextPipeId == id
    {
      nextPipeId := id;
    }
  }

  /** `while (n-- > 0) sem_post(...)`: the number of posts the loop makes. */
  method Posts(n: int) returns (posts: nat)
    ensures posts == if n > 0 then n else 0
  {
    var toWake := n;
    posts := 0;
    while toWake > 0
      invariant toWake >= 0 ==> posts + toWake == n
      invariant toWake <= 0 ==> posts == if n > 0 then n else 0
      decreases toWake
    {
      posts := posts + 1;
      toWake := toWake - 1;
    }
  }
}
