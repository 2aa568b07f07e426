/**
 * Threads and the dispatcher (sys/kern/thread.c).  The dispatcher keeps the
 * running thread `current`, the FIFO `run_queue` of threads ready to run
 * and the `wait_queue` of sleeping threads.  Each queue is modelled as the
 * sequence of threads met from its header; a thread is on at most one
 * queue at a time, and never on a queue while it is `current`.
 */
module Threads {
  import opened CTypes
  import Vmem

  const TASK_STATE_RUNNING: int := 0
  const TASK_STATE_WAITING: int := 1
  const TASK_STATE_EXITED: int := 2
  const TASK_STATE_ZOMBIE: int := 3

  const PAGESIZE: int := Vmem.PAGESIZE

  class Thread {
    var state: int
    var pid: int
    /** The address the thread sleeps on. */
    var waitcause: int
    var brk: int
    /** `regs.esp`, the saved stack pointer. */
    var esp: int
    var vmmap: Vmem.VmMap

    /** The zeroed record of `kthread_new`/`thread_fork` with its own empty map. */
    constructor (pid: int, esp: int)
      ensures this.pid == pid && this.esp == esp && state == TASK_STATE_RUNNING
      ensures waitcause == 0 && brk == 0 && fresh(vmmap) && vmmap.Valid() && vmmap.areas == []
    {
      this.pid := pid;
      this.esp := esp;
      state := TASK_STATE_RUNNING;
      waitcause := 0;
      brk := 0;
      vmmap := new Vmem.VmMap();
    }
  }

  /** No thread occurs twice in s. */
  ghost predicate Distinct(s: seq<Thread>) {
    forall t :: t in s ==> multiset(s)[t] == 1
  }

  /** The wait causes of the threads of ws, in order. */
  ghost function Causes(ws: seq<Thread>): (cs: seq<int>)
    reads ws
    ensures |cs| == |ws| && forall k :: 0 <= k < |ws| ==> cs[k] == ws[k].waitcause
  {
    seq(|ws|, k requires 0 <= k < |ws| reads ws => ws[k].waitcause)
  }

  /**
   * The waiters of ws (whose wait causes are cs) that `thread_wakeup`
   * releases for cause, in the order they end up at the front of the run
   * queue: each is pushed at the front, so the last one met comes first.
   */
  function Woken(ws: seq<Thread>, cs: seq<int>, cause: int): (r: seq<Thread>)
    requires |cs| == |ws|
    decreases |ws|
  {
    if ws == [] then []
    else (if cs[|ws| - 1] == cause then [ws[|ws| - 1]] else []) + Woken(ws[..|ws| - 1], cs[..|ws| - 1], cause)
  }

  /** The waiters of ws that stay on the wait queue, in their order. */
  function Kept(ws: seq<Thread>, cs: seq<int>, cause: int): (r: seq<Thread>)
    requires |cs| == |ws|
    decreases |ws|
  {
    if ws == [] then []
    else Kept(ws[..|ws| - 1], cs[..|ws| - 1], cause) + (if cs[|ws| - 1] != cause then [ws[|ws| - 1]] else [])
  }

  /** Every waiter is either released or kept, exactly once. */
  lemma {:induction false} WakeSplit(ws: seq<Thread>, cs: seq<int>, cause: int)
    requires |cs| == |ws|
    ensures multiset(Woken(ws, cs, cause)) + multiset(Kept(ws, cs, cause)) == multiset(ws)
    decreases |ws|
  {
    if ws != [] {
      var n := |ws| - 1;
      WakeSplit(ws[..n], cs[..n], cause);
      assert ws == ws[..n] + [ws[n]];
    }
  }

  /** Released waiters are those whose cause matches; kept ones are those whose cause does not. */
  lemma {:induction false} WakeMembers(ws: seq<Thread>, cs: seq<int>, cause: int)
    requires |cs| == |ws|
    ensures forall t :: t in Woken(ws, cs, cause) ==> exists k :: 0 <= k < |ws| && ws[k] == t && cs[k] == cause
    ensures forall t :: t in Kept(ws, cs, cause) ==> exists k :: 0 <= k < |ws| && ws[k] == t && cs[k] != cause
    decreases |ws|
  {
    if ws != [] {
      var n := |ws| - 1;
      var p, pc := ws[..n], cs[..n];
      WakeMembers(p, pc, cause);
      assert Woken(ws, cs, cause) == (if cs[n] == cause then [ws[n]] else []) + Woken(p, pc, cause);
      assert Kept(ws, cs, cause) == Kept(p, pc, cause) + (if cs[n] != cause then [ws[n]] else []);
      forall t | t in Woken(ws, cs, cause) ensures exists k :: 0 <= k < |ws| && ws[k] == t && cs[k] == cause {
        if t != ws[n] || cs[n] != cause {
          var k :| 0 <= k < |p| && p[k] == t && pc[k] == cause;
          assert ws[k] == t && cs[k] == cause;
        }
      }
      forall t | t in Kept(ws, cs, cause) ensures exists k :: 0 <= k < |ws| && ws[k] == t && cs[k] != cause {
        if t != ws[n] || cs[n] == cause {
          var k :| 0 <= k < |p| && p[k] == t && pc[k] != cause;
          assert ws[k] == t && cs[k] != cause;
        }
      }
    }
  }

  /** After a wakeup the threads on the two queues are the ones before, none repeated, and no others. */
  lemma WakeFrame(ws: seq<Thread>, cs: seq<int>, cause: int, rq0: seq<Thread>)
    requires |cs| == |ws| && Distinct(rq0 + ws)
    ensures Distinct(Woken(ws, cs, cause) + rq0 + Kept(ws, cs, cause))
    ensures multiset(Woken(ws, cs, cause) + rq0 + Kept(ws, cs, cause)) == multiset(rq0 + ws)
  {
    WakeSplit(ws, cs, cause);
    var w, k := Woken(ws, cs, cause), Kept(ws, cs, cause);
    assert multiset(w + rq0 + k) == multiset(w) + multiset(rq0) + multiset(k);
    assert multiset(rq0 + ws) == multiset(rq0) + multiset(ws);
    DistinctPerm(rq0 + ws, w + rq0 + k);
  }

  /** A sequence with the same elements as a sequence without repeats has none either. */
  lemma DistinctPerm(a: seq<Thread>, b: seq<Thread>)
    requires Distinct(a) && multiset(a) == multiset(b)
    ensures Distinct(b)
  {
    forall t | t in b ensures multiset(b)[t] == 1 {
      assert multiset(b)[t] > 0;
      assert t in a;
    }
  }

  /** Adding a thread that is on neither queue to the back of one of them keeps the pair free of repeats. */
  lemma PushKeeps(a: seq<Thread>, b: seq<Thread>, t: Thread)
    requires Distinct(a + b) && t !in a && t !in b
    ensures Distinct(a + [t] + b) && Distinct(a + (b + [t]))
  {
    assert multiset(a + [t] + b) == multiset(a + b) + multiset{t};
    assert multiset(a + (b + [t])) == multiset(a + b) + multiset{t};
    assert multiset(a + b)[t] == 0;
    forall x | x in a + [t] + b ensures multiset(a + [t] + b)[x] == 1 {
      if x != t {
        assert x in a + b;
      }
    }
    forall x | x in a + (b + [t]) ensures multiset(a + (b + [t]))[x] == 1 {
      if x != t {
        assert x in a + b;
      }
    }
  }

  /** Taking the head off the first queue leaves the pair free of repeats, without the head. */
  lemma PopKeeps(a: seq<Thread>, b: seq<Thread>)
    requires Distinct(a + b) && a != []
    ensures Distinct(a[1..] + b) && a[0] !in a[1..] && a[0] !in b
  {
    var s, rest := a + b, a[1..] + b;
    assert s == [a[0]] + rest;
    assert multiset(s) == multiset{a[0]} + multiset(rest);
    assert a[0] in s;
    assert multiset(rest)[a[0]] == 0;
    forall x | x in rest ensures multiset(rest)[x] == 1 {
      assert x in s;
    }
  }

  /** No thread of a sequence without repeats is in both of its parts. */
  lemma DistinctApart(a: seq<Thread>, b: seq<Thread>)
    requires Distinct(a + b)
    ensures forall t :: t in a ==> t !in b
  {
    forall t | t in a ensures t !in b {
      assert multiset(a + b)[t] == multiset(a)[t] + multiset(b)[t];
    }
  }

  /** One more waiter looked at: it joins the released or the kept ones. */
  lemma WakeStep(ws: seq<Thread>, cs: seq<int>, cause: int, i: int)
    requires |cs| == |ws| && 0 <= i < |ws|
    ensures Woken(ws[..i + 1], cs[..i + 1], cause) == (if cs[i] == cause then [ws[i]] else []) + Woken(ws[..i], cs[..i], cause)
    ensures Kept(ws[..i + 1], cs[..i + 1], cause) == Kept(ws[..i], cs[..i], cause) + (if cs[i] != cause then [ws[i]] else [])
  {
    assert ws[..i + 1][..i] == ws[..i] && cs[..i + 1][..i] == cs[..i];
  }

  /** Unlinking the element after the first |k| leaves the rest in order. */
  lemma DropAt<T>(k: seq<T>, x: T, rest: seq<T>)
    ensures var w := k + ([x] + rest); w[..|k|] + w[|k| + 1..] == k + rest
  {
    var w := k + ([x] + rest);
    assert w[..|k|] == k && w[|k| + 1..] == rest;
  }

  /**
   * One step of the wakeup loop on the queues: waiter i, found at index
   * `kept` of the wait queue, is unlinked and pushed on the run queue when
   * its cause matches, and stepped over otherwise.
   */
  lemma WakeAdvance(ws: seq<Thread>, cs: seq<int>, cause: int, rq0: seq<Thread>, i: int,
                    wq: seq<Thread>, rq: seq<Thread>, kept: int)
    requires |cs| == |ws| && 0 <= i < |ws|
    requires wq == Kept(ws[..i], cs[..i], cause) + ws[i..] && kept == |Kept(ws[..i], cs[..i], cause)|
    requires rq == Woken(ws[..i], cs[..i], cause) + rq0
    ensures 0 <= kept < |wq| && wq[kept] == ws[i]
    ensures cs[i] == cause ==>
              && wq[..kept] + wq[kept + 1..] == Kept(ws[..i + 1], cs[..i + 1], cause) + ws[i + 1..]
              && kept == |Kept(ws[..i + 1], cs[..i + 1], cause)|
              && [ws[i]] + rq == Woken(ws[..i + 1], cs[..i + 1], cause) + rq0
    ensures cs[i] != cause ==>
              && wq == Kept(ws[..i + 1], cs[..i + 1], cause) + ws[i + 1..]
              && kept + 1 == |Kept(ws[..i + 1], cs[..i + 1], cause)|
              && rq == Woken(ws[..i + 1], cs[..i + 1], cause) + rq0
  {
    WakeStep(ws, cs, cause, i);
    var ks := Kept(ws[..i], cs[..i], cause);
    assert ws[i..] == [ws[i]] + ws[i + 1..];
    if cs[i] == cause {
      DropAt(ks, ws[i], ws[i + 1..]);
    } else {
      assert ks + ws[i..] == (ks + [ws[i]]) + ws[i + 1..];
    }
  }

  /** The queues after a wakeup keep the dispatcher's invariant: no repeats, the right states, current on neither. */
  lemma WakeValid(ws: seq<Thread>, cs: seq<int>, cause: int, rq0: seq<Thread>, cur: Thread?)
    requires |cs| == |ws| && Distinct(rq0 + ws) && (cur != null ==> cur !in rq0 && cur !in ws)
    requires forall t :: t in rq0 ==> t.state == TASK_STATE_RUNNING
    requires forall k :: 0 <= k < |ws| ==> ws[k].state == (if cs[k] == cause then TASK_STATE_RUNNING else TASK_STATE_WAITING)
    ensures var rq, wq := Woken(ws, cs, cause) + rq0, Kept(ws, cs, cause);
            && Distinct(rq + wq)
            && (cur != null ==> cur !in rq && cur !in wq)
            && (forall t :: t in rq ==> t.state == TASK_STATE_RUNNING)
            && (forall t :: t in wq ==> t.state == TASK_STATE_WAITING)
  {
    WakeFrame(ws, cs, cause, rq0);
    WakeMembers(ws, cs, cause);
    var rq, wq := Woken(ws, cs, cause) + rq0, Kept(ws, cs, cause);
    forall t | t in rq ensures t.state == TASK_STATE_RUNNING {
      if t !in rq0 {
        var k :| 0 <= k < |ws| && ws[k] == t && cs[k] == cause;
      }
    }
    forall t | t in wq ensures t.state == TASK_STATE_WAITING {
      var k :| 0 <= k < |ws| && ws[k] == t && cs[k] != cause;
    }
    if cur != null {
      assert multiset(rq0 + ws)[cur] == 0;
      assert multiset(rq + wq)[cur] == 0;
    }
  }

  /**
   * The loop of `thread_wakeup` over the waiters ws (with causes cs): a
   * matching waiter is marked RUNNING, unlinked and pushed at the front of
   * the run queue rq0.
   */
  method WakeLoop(ws: seq<Thread>, ghost cs: seq<int>, rq0: seq<Thread>, cause: int) returns (wq: seq<Thread>, rq: seq<Thread>)
    requires |cs| == |ws| && forall k {:trigger cs[k]} :: 0 <= k < |ws| ==> ws[k].waitcause == cs[k]
    requires forall k :: 0 <= k < |ws| ==> ws[k].state == TASK_STATE_WAITING
    modifies set t | t in ws
    ensures forall k {:trigger cs[k]} :: 0 <= k < |ws| ==> ws[k].waitcause == cs[k]
    ensures wq == Kept(ws, cs, cause) && rq == Woken(ws, cs, cause) + rq0
    ensures forall k {:trigger cs[k]} :: 0 <= k < |ws| && cs[k] == cause ==> ws[k].state == TASK_STATE_RUNNING
    ensures forall k {:trigger cs[k]} :: 0 <= k < |ws| && cs[k] != cause ==> ws[k].state == TASK_STATE_WAITING
  {
    wq, rq := ws, rq0;
    var i, kept := 0, 0;
    while i < |ws|
      invariant 0 <= i <= |ws|
      invariant wq == Kept(ws[..i], cs[..i], cause) + ws[i..] && kept == |Kept(ws[..i], cs[..i], cause)|
      invariant rq == Woken(ws[..i], cs[..i], cause) + rq0
      invariant forall k {:trigger cs[k]} :: 0 <= k < i && cs[k] == cause ==> ws[k].state == TASK_STATE_RUNNING
      invariant forall k {:trigger cs[k]} :: 0 <= k < |ws| && cs[k] != cause ==> ws[k].state == TASK_STATE_WAITING
      invariant forall k {:trigger cs[k]} :: 0 <= k < |ws| ==> ws[k].waitcause == cs[k]
    {
      var t := ws[i];
      WakeAdvance(ws, cs, cause, rq0, i, wq, rq, kept);
      if t.waitcause == cause {
        t.state := TASK_STATE_RUNNING;
        wq := wq[..kept] + wq[kept + 1..];
        rq := [t] + rq;
      } else {
        kept := kept + 1;
      }
      i := i + 1;
    }
    assert ws[..i] == ws && cs[..i] == cs;
  }

  /**
   * The dispatcher's invariant on a run queue rq, a wait queue wq and the
   * current thread: no thread twice, current on neither queue, every
   * thread on the run queue RUNNING and every thread on the wait queue WAITING.
   */
  ghost predicate QueuesOk(rq: seq<Thread>, wq: seq<Thread>, cur: Thread?)
    reads rq, wq
  {
    && Distinct(rq + wq)
    && (cur != null ==> cur !in rq && cur !in wq)
    && (forall t :: t in rq ==> t.state == TASK_STATE_RUNNING)
    && (forall t :: t in wq ==> t.state == TASK_STATE_WAITING)
  }

  /** `thread_run` keeps the invariant: the thread becomes current or joins the run queue. */
  lemma RunKeeps(rq: seq<Thread>, wq: seq<Thread>, cur: Thread?, t: Thread)
    requires QueuesOk(rq, wq, cur) && t != cur && t !in rq && t !in wq && t.state == TASK_STATE_RUNNING
    ensures cur == null ==> QueuesOk(rq, wq, t)
    ensures cur != null ==> QueuesOk(rq + [t], wq, cur)
  {
    PushKeeps(rq, wq, t);
  }

  /** `thread_sched` keeps the invariant: current is requeued by its state and the head of the run queue takes its place. */
  lemma SchedKeeps(rq: seq<Thread>, wq: seq<Thread>, cur: Thread)
    requires QueuesOk(rq, wq, cur)
    ensures var rq1 := if cur.state == TASK_STATE_RUNNING then rq + [cur] else rq;
            var wq1 := if cur.state == TASK_STATE_WAITING then wq + [cur] else wq;
            rq1 != [] ==> QueuesOk(rq1[1..], wq1, rq1[0])
  {
    var rq1 := if cur.state == TASK_STATE_RUNNING then rq + [cur] else rq;
    var wq1 := if cur.state == TASK_STATE_WAITING then wq + [cur] else wq;
    if cur.state == TASK_STATE_RUNNING || cur.state == TASK_STATE_WAITING {
      PushKeeps(rq, wq, cur);
    }
    assert Distinct(rq1 + wq1);
    if rq1 != [] {
      PopKeeps(rq1, wq1);
    }
  }

  /** The break `sys_sbrk` moves to: brk + incr rounded up to a page, in 32-bit arithmetic. */
  function NewBrk(brk: int, incr: int): (r: int)
    requires 0 <= brk < U32_LIMIT && 0 <= incr
  {
    Vmem.PageBase(Wrap32(brk + incr + (PAGESIZE - 1)))
  }

  /** When nothing wraps, the new break is the first page boundary at or above brk + incr. */
  lemma NewBrkRoundsUp(brk: int, incr: int)
    requires 0 <= brk < U32_LIMIT && 0 <= incr && brk + incr + (PAGESIZE - 1) < U32_LIMIT
    ensures NewBrk(brk, incr) % PAGESIZE == 0
    ensures brk + incr <= NewBrk(brk, incr) < brk + incr + PAGESIZE
    ensures brk % PAGESIZE == 0 && incr > 0 ==> NewBrk(brk, incr) >= brk + PAGESIZE
  {
  }

  class Dispatcher {
    var current: Thread?
    var runQueue: seq<Thread>
    var waitQueue: seq<Thread>
    var pidNext: int

    ghost predicate Valid()
      reads this, runQueue, waitQueue
    {
      QueuesOk(runQueue, waitQueue, current) && 0 <= pidNext < U32_LIMIT
    }

    /** The queues of `dispatcher_init`: no current thread, both queues empty, pids from 0. */
    constructor ()
      ensures Valid() && current == null && runQueue == [] && waitQueue == [] && pidNext == 0
    {
      current := null;
      runQueue := [];
      waitQueue := [];
      pidNext := 0;
    }

    /** The pid step of `kthread_new` and `thread_fork`: the new thread takes `pid_next`, which then moves on (a `u32`). */
    method NewThread(esp: int) returns (t: Thread)
      requires Valid()
      modifies this`pidNext
      ensures Valid() && fresh(t) && fresh(t.vmmap)
      ensures t.pid == old(pidNext) && pidNext == Wrap32(old(pidNext) + 1)
      ensures t.state == TASK_STATE_RUNNING && t.esp == esp && t.brk == 0 && t.vmmap.areas == []
    {
      t := new Thread(pidNext, esp);
      pidNext := Wrap32(pidNext + 1);
    }

    /** `thread_run`: t becomes RUNNING; it is the current thread if there is none, else it joins the back of the run queue. */
    method Run(t: Thread)
      requires Valid() && t != current && t !in runQueue && t !in waitQueue
      modifies this`current, this`runQueue, t`state
      ensures Valid() && t.state == TASK_STATE_RUNNING && waitQueue == old(waitQueue)
      ensures old(current) == null ==> current == t && runQueue == old(runQueue)
      ensures old(current) != null ==> current == old(current) && runQueue == old(runQueue) + [t]
    {
      t.state := TASK_STATE_RUNNING;
      RunKeeps(runQueue, waitQueue, current, t);
      if current == null {
        current := t;
      } else {
        runQueue := runQueue + [t];
      }
    }

    /**
     * `thread_sched`: current goes to the back of the run queue when
     * RUNNING, to the back of the wait queue when WAITING, and is dropped
     * (freed) when EXITED; then the head of the run queue becomes current.
     * When the run queue is empty the kernel halts for good, modelled by
     * `halted`.
     */
    method Sched() returns (halted: bool)
      requires Valid() && current != null
      modifies this`current, this`runQueue, this`waitQueue
      ensures !halted ==> Valid() && current != null
      ensures old(current.state) == TASK_STATE_RUNNING ==> !halted
      ensures var rq := if old(current.state) == TASK_STATE_RUNNING then old(runQueue) + [old(current)] else old(runQueue);
              && waitQueue == (if old(current.state) == TASK_STATE_WAITING then old(waitQueue) + [old(current)] else old(waitQueue))
              && halted == (rq == [])
              && (rq != [] ==> current == rq[0] && runQueue == rq[1..])
    {
      var cur := current;
      SchedKeeps(runQueue, waitQueue, cur);
      if cur.state == TASK_STATE_RUNNING {
        runQueue := runQueue + [cur];
      } else if cur.state == TASK_STATE_WAITING {
        waitQueue := waitQueue + [cur];
      }
      if runQueue == [] {
        return true;
      }
      current := runQueue[0];
      runQueue := runQueue[1..];
      return false;
    }

    /** The state change of `thread_sleep`: current waits on cause (the yield that follows is context switching). */
    method Sleep(cause: int)
      requires Valid() && current != null
      modifies current`state, current`waitcause
      ensures Valid() && current.state == TASK_STATE_WAITING && current.waitcause == cause
    {
      current.state := TASK_STATE_WAITING;
      current.waitcause := cause;
    }

    /** The state change of `thread_exit`: current is EXITED, to be freed by the next `thread_sched`. */
    method Exit()
      requires Valid() && current != null
      modifies current`state
      ensures Valid() && current.state == TASK_STATE_EXITED
    {
      current.state := TASK_STATE_EXITED;
    }

    /**
     * `thread_wakeup`: every waiter whose cause matches becomes RUNNING and
     * moves to the front of the run queue; the other waiters stay, in order.
     */
    method Wakeup(cause: int)
      requires Valid()
      modifies this`runQueue, this`waitQueue, set t | t in waitQueue
      ensures Valid() && current == old(current)
      ensures var ws, cs := old(waitQueue), old(Causes(waitQueue));
              && waitQueue == Kept(ws, cs, cause)
              && runQueue == Woken(ws, cs, cause) + old(runQueue)
              && forall k :: 0 <= k < |ws| ==> ws[k].state == (if cs[k] == cause then TASK_STATE_RUNNING else TASK_STATE_WAITING)
    {
      var ws, rq0 := waitQueue, runQueue;
      ghost var cs := Causes(ws);
      DistinctApart(rq0, ws);
      waitQueue, runQueue := WakeLoop(ws, cs, rq0, cause);
      forall t | t in rq0 ensures t.state == TASK_STATE_RUNNING {
        assert t !in ws;
      }
      WakeValid(ws, cs, cause, rq0, current);
    }

    /**
     * `sys_sbrk`: -1 for a negative increment, the break itself for 0, -1
     * when brk + incr passes the saved stack pointer; otherwise the break
     * moves up to the next page boundary and the old break is returned;
     * the pages in between become a new area unless their page-aligned
     * range overlaps an existing area, in which case the area list is left
     * alone (the result of `vm_add_area` is not checked).
     */
    method Sbrk(incr: int) returns (r: int)
      requires Valid() && current != null && INT_MIN <= incr <= INT_MAX
      requires 0 <= current.brk < U32_LIMIT && 0 <= current.esp < U32_LIMIT && current.vmmap.Valid()
      modifies current`brk, current.vmmap
      ensures Valid() && current == old(current) && current.vmmap.Valid()
      ensures incr <= 0 || Wrap32(old(current.brk) + incr) > current.esp ==>
                && r == (if incr == 0 then ToInt32(old(current.brk)) else -1)
                && current.brk == old(current.brk) && current.vmmap.areas == old(current.vmmap.areas)
      ensures incr > 0 && Wrap32(old(current.brk) + incr) <= current.esp ==>
                var brk0, areas0 := old(current.brk), old(current.vmmap.areas);
                var al := Vmem.Align(brk0, Wrap32(NewBrk(brk0, incr) - brk0));
                && r == ToInt32(brk0) && current.brk == NewBrk(brk0, incr)
                && ((exists k :: 0 <= k < |areas0| && Vmem.Clashes(al.start, al.size, areas0[k])) ==>
                      current.vmmap.areas == areas0)
                && ((forall k :: 0 <= k < |areas0| ==> !Vmem.Clashes(al.start, al.size, areas0[k])) ==>
                      && |current.vmmap.areas| == |areas0| + 1 && current.vmmap.areas[..|areas0|] == areas0
                      && var a := current.vmmap.areas[|areas0|];
                         a.start == al.start && a.size == al.size && a.offset == al.offset && a.flags == 0)
    {
      var cur := current;
      if incr < 0 {
        return -1;
      } else if incr == 0 {
        return ToInt32(cur.brk);
      }
      if Wrap32(cur.brk + incr) > cur.esp {
        return -1;
      }
      var prev := cur.brk;
      var next := NewBrk(prev, incr);
      var m := new Vmem.Mapper();
      var _ := cur.vmmap.AddArea(prev, Wrap32(next - prev), m);
      cur.brk := next;
      return ToInt32(prev);
    }
  }
}
