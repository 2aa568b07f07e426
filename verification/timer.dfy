/**
 * The kernel's one-shot timers (sys/kern/timer.c).  Timers are kept in a
 * delta list: each entry's `expire` is the number of ticks after the entry
 * before it, so the prefix sums of the list are the absolute deadlines.
 * The linked list is modelled as a sequence that the operations reassign;
 * the callback and its argument are an opaque job number, and calling it is
 * reported as output.
 */
module Timer {
  type Job = nat

  datatype TimerEntry = TimerEntry(expire: nat, job: Job)

  /** An absolute deadline, in ticks from now, with the job to run then. */
  datatype Deadline = Deadline(at: int, job: Job)

  /** The sum of all deltas: the deadline of the last entry. */
  function Sum(ts: seq<TimerEntry>): nat
  {
    if ts == [] then 0 else Sum(ts[..|ts| - 1]) + ts[|ts| - 1].expire
  }

  /** The absolute deadlines of a delta list: entry k fires after the first k + 1 deltas. */
  function Absolute(ts: seq<TimerEntry>): seq<Deadline>
  {
    seq(|ts|, k requires 0 <= k < |ts| => Deadline(Sum(ts[..k + 1]), ts[k].job))
  }

  ghost predicate Sorted(ds: seq<Deadline>) {
    forall i, j :: 0 <= i < j < |ds| ==> ds[i].at <= ds[j].at
  }

  lemma SumPrefixStep(ts: seq<TimerEntry>, k: nat)
    requires k < |ts|
    ensures Sum(ts[..k + 1]) == Sum(ts[..k]) + ts[k].expire
  {
    assert ts[..k + 1][..k] == ts[..k];
  }

  lemma {:induction false} SumAppend(a: seq<TimerEntry>, b: seq<TimerEntry>)
    ensures Sum(a + b) == Sum(a) + Sum(b)
    decreases |b|
  {
    if b == [] {
      assert a + b == a;
    } else {
      var n := |b| - 1;
      assert (a + b)[..|a + b| - 1] == a + b[..n];
      SumAppend(a, b[..n]);
    }
  }

  lemma {:induction false} SumPrefixMono(ts: seq<TimerEntry>, i: nat, j: nat)
    requires i <= j <= |ts|
    ensures Sum(ts[..i]) <= Sum(ts[..j])
    decreases j - i
  {
    if i < j {
      SumPrefixStep(ts, j - 1);
      SumPrefixMono(ts, i, j - 1);
    }
  }

  /** Delta lists give deadlines in order: the list is kept sorted by construction. */
  lemma AbsoluteSorted(ts: seq<TimerEntry>)
    ensures Sorted(Absolute(ts))
  {
    var ds := Absolute(ts);
    forall i, j | 0 <= i < j < |ds| ensures ds[i].at <= ds[j].at {
      SumPrefixMono(ts, i + 1, j + 1);
    }
  }

  /**
   * The reference insertion: a new deadline goes after every deadline that
   * is not later than it, so timers with equal deadlines fire in the order
   * they were started.
   */
  function Insert(ds: seq<Deadline>, x: Deadline): (r: seq<Deadline>)
    ensures |r| == |ds| + 1
  {
    if ds == [] then [x]
    else if x.at < ds[0].at then [x] + ds
    else [ds[0]] + Insert(ds[1..], x)
  }

  /** Insertion adds x and keeps every other deadline: a permutation of ds + [x]. */
  lemma {:induction false} InsertPermutation(ds: seq<Deadline>, x: Deadline)
    ensures multiset(Insert(ds, x)) == multiset(ds) + multiset{x}
    decreases |ds|
  {
    if ds != [] {
      assert ds == [ds[0]] + ds[1..];
      if x.at >= ds[0].at {
        InsertPermutation(ds[1..], x);
      }
    }
  }

  /** Insertion keeps the deadlines in order. */
  lemma {:induction false} InsertSorted(ds: seq<Deadline>, x: Deadline)
    requires Sorted(ds)
    ensures Sorted(Insert(ds, x))
    decreases |ds|
  {
    if ds != [] && x.at >= ds[0].at {
      InsertSorted(ds[1..], x);
      var r := Insert(ds, x);
      var tl := Insert(ds[1..], x);
      assert r == [ds[0]] + tl;
      InsertPermutation(ds[1..], x);
      forall i, j | 0 <= i < j < |r| ensures r[i].at <= r[j].at {
        assert r[j] == tl[j - 1];
        if i == 0 {
          assert tl[j - 1] in multiset(ds[1..]) + multiset{x};
          assert tl[j - 1] == x || tl[j - 1] in ds[1..];
        } else {
          assert r[i] == tl[i - 1];
        }
      }
    }
  }

  /** Insert places x at the first position whose deadline is later than x. */
  lemma {:induction false} InsertAt(ds: seq<Deadline>, x: Deadline, i: nat)
    requires i <= |ds|
    requires forall k :: 0 <= k < i ==> ds[k].at <= x.at
    requires i < |ds| ==> x.at < ds[i].at
    ensures Insert(ds, x) == ds[..i] + [x] + ds[i..]
    decreases i
  {
    if i == 0 {
      assert ds[..0] + [x] + ds[0..] == [x] + ds;
    } else {
      InsertAt(ds[1..], x, i - 1);
      assert Insert(ds, x) == [ds[0]] + Insert(ds[1..], x);
      assert ds[..i] == [ds[0]] + ds[1..][..i - 1];
      assert ds[i..] == ds[1..][i - 1..];
    }
  }


  /** Every deadline one tick closer. */
  function Shift(ds: seq<Deadline>): seq<Deadline>
  {
    seq(|ds|, k requires 0 <= k < |ds| => Deadline(ds[k].at - 1, ds[k].job))
  }

  class TimerList {
    var timers: seq<TimerEntry>

    /** The pending timers as absolute deadlines. */
    function Deadlines(): seq<Deadline>
      reads this
    {
      Absolute(timers)
    }

    constructor ()
      ensures timers == []
    {
      timers := [];
    }

    /**
     * `timer_start`: walks the list subtracting deltas until the new delay is
     * smaller than an entry's delta, shortens that entry by the new delay and
     * links the new timer in front of it.
     */
    method Start(expire: nat, job: Job)
      modifies this
      ensures Deadlines() == Insert(old(Deadlines()), Deadline(expire, job))
    {
      var e := expire;
      var i := 0;
      ghost var ds := Absolute(timers);
      while i < |timers|
        invariant i <= |timers| && timers == old(timers) && 0 <= e
        invariant Sum(timers[..i]) + e == expire
        invariant ds == Absolute(timers) && forall k :: 0 <= k < i ==> ds[k].at <= expire
      {
        if e < timers[i].expire {
          break;
        }
        SumPrefixStep(timers, i);
        e := e - timers[i].expire;
        i := i + 1;
      }
      if i < |timers| {
        InsertBefore(timers, ds, i, e, expire, job);
        timers := Splice(timers, i, e, job);
      } else {
        assert timers[..i] == timers;
        InsertAtEnd(timers, ds, e, expire, job);
        timers := timers + [TimerEntry(e, job)];
      }
    }

    /**
     * `timer_tick`: one tick passes.  The first delta drops by one unless it
     * is already 0, then every timer at the front whose delta is 0 is removed
     * and its job run, in list order; `fired` lists those jobs.
     */
    method Tick() returns (fired: seq<Job>)
      modifies this
      ensures old(timers) == [] ==> timers == [] && fired == []
      ensures old(timers) != [] ==>
        var ds := if old(timers)[0].expire > 0 then Shift(old(Deadlines())) else old(Deadlines());
        var k := |fired|;
        k <= |ds| && Deadlines() == ds[k..]
        && (forall j :: 0 <= j < k ==> ds[j] == Deadline(0, fired[j]))
        && (k < |ds| ==> ds[k].at > 0)
    {
      fired := [];
      if timers == [] {
        return;
      } else if timers[0].expire > 0 {
        ShiftHead(timers);
        timers := timers[0 := timers[0].(expire := timers[0].expire - 1)];
      }
      ghost var ds := Absolute(timers);
      while timers != [] && timers[0].expire == 0
        invariant |fired| <= |ds| && Absolute(timers) == ds[|fired|..]
        invariant forall j :: 0 <= j < |fired| ==> ds[j] == Deadline(0, fired[j])
      {
        DropZeroHead(timers, ds[|fired|..]);
        assert ds[|fired| + 1..] == ds[|fired|..][1..];
        fired := fired + [timers[0].job];
        timers := timers[1..];
      }
      if timers != [] {
        SumPrefixStep(timers, 0);
      }
    }
  }

  /** The list after `timer_start` links a timer with delta e in front of entry i. */
  function Splice(ts: seq<TimerEntry>, i: nat, e: nat, job: Job): seq<TimerEntry>
    requires i < |ts| && e <= ts[i].expire
  {
    ts[..i] + [TimerEntry(e, job), ts[i].(expire := ts[i].expire - e)] + ts[i + 1..]
  }

  lemma SpliceBelow(ts: seq<TimerEntry>, i: nat, e: nat, job: Job, k: nat)
    requires i < |ts| && e <= ts[i].expire && k < i
    ensures Sum(Splice(ts, i, e, job)[..k + 1]) == Sum(ts[..k + 1])
  {
    assert Splice(ts, i, e, job)[..k + 1] == ts[..k + 1];
  }

  lemma SpliceAt(ts: seq<TimerEntry>, i: nat, e: nat, job: Job)
    requires i < |ts| && e <= ts[i].expire
    ensures Sum(Splice(ts, i, e, job)[..i + 1]) == Sum(ts[..i]) + e
  {
    assert Splice(ts, i, e, job)[..i + 1] == ts[..i] + [TimerEntry(e, job)];
    SumAppend(ts[..i], [TimerEntry(e, job)]);
    assert [TimerEntry(e, job)][..0] == [];
  }

  lemma SpliceAbove(ts: seq<TimerEntry>, i: nat, e: nat, job: Job, k: nat)
    requires i < k <= |ts| && e <= ts[i].expire
    ensures Sum(Splice(ts, i, e, job)[..k + 1]) == Sum(ts[..k])
  {
    var pair := [TimerEntry(e, job), ts[i].(expire := ts[i].expire - e)];
    var mid := ts[i + 1..k];
    assert Splice(ts, i, e, job)[..k + 1] == ts[..i] + pair + mid;
    assert ts[..k] == ts[..i] + [ts[i]] + mid;
    SumAppend(ts[..i] + pair, mid);
    SumAppend(ts[..i], pair);
    SumAppend(ts[..i] + [ts[i]], mid);
    SumAppend(ts[..i], [ts[i]]);
    assert pair[..1] == [TimerEntry(e, job)] && [TimerEntry(e, job)][..0] == [] && [ts[i]][..0] == [];
  }

  /** Linking the new timer in front of entry i, which loses the new delta, is the reference insertion. */
  lemma InsertBefore(ts: seq<TimerEntry>, ds: seq<Deadline>, i: nat, e: nat, expire: int, job: Job)
    requires ds == Absolute(ts) && i < |ts| && e < ts[i].expire && Sum(ts[..i]) + e == expire
    requires forall k :: 0 <= k < i ==> ds[k].at <= expire
    ensures Absolute(Splice(ts, i, e, job)) == Insert(ds, Deadline(expire, job))
  {
    var x := Deadline(expire, job);
    var ts' := Splice(ts, i, e, job);
    var want := ds[..i] + [x] + ds[i..];
    SumPrefixStep(ts, i);
    InsertAt(ds, x, i);
    forall k | 0 <= k < |ts'| ensures Absolute(ts')[k] == want[k] {
      if k < i {
        SpliceBelow(ts, i, e, job, k);
      } else if k == i {
        SpliceAt(ts, i, e, job);
      } else {
        SpliceAbove(ts, i, e, job, k);
        assert want[k] == ds[k - 1];
      }
    }
  }

  lemma SumSnoc(ts: seq<TimerEntry>, t: TimerEntry, k: nat)
    requires k <= |ts|
    ensures Sum((ts + [t])[..k + 1]) == if k < |ts| then Sum(ts[..k + 1]) else Sum(ts) + t.expire
  {
    if k < |ts| {
      assert (ts + [t])[..k + 1] == ts[..k + 1];
    } else {
      assert (ts + [t])[..k + 1] == ts + [t];
      assert (ts + [t])[..|ts|] == ts;
    }
  }

  /** Appending the new timer after every entry is the reference insertion. */
  lemma InsertAtEnd(ts: seq<TimerEntry>, ds: seq<Deadline>, e: nat, expire: int, job: Job)
    requires ds == Absolute(ts) && Sum(ts) + e == expire
    requires forall k :: 0 <= k < |ts| ==> ds[k].at <= expire
    ensures Absolute(ts + [TimerEntry(e, job)]) == Insert(ds, Deadline(expire, job))
  {
    var ts' := ts + [TimerEntry(e, job)];
    var want := ds + [Deadline(expire, job)];
    InsertAt(ds, Deadline(expire, job), |ts|);
    assert ds[..|ts|] == ds && ds[|ts|..] == [];
    forall k | 0 <= k < |ts'| ensures Absolute(ts')[k] == want[k] {
      SumSnoc(ts, TimerEntry(e, job), k);
    }
  }

  /** Lowering the first delta lowers every deadline. */
  lemma ShiftHead(ts: seq<TimerEntry>)
    requires ts != [] && ts[0].expire > 0
    ensures Absolute(ts[0 := ts[0].(expire := ts[0].expire - 1)]) == Shift(Absolute(ts))
  {
    var ts' := ts[0 := ts[0].(expire := ts[0].expire - 1)];
    forall k | 0 <= k < |ts| ensures Absolute(ts')[k] == Shift(Absolute(ts))[k] {
      assert ts'[..k + 1] == [ts'[0]] + ts[1..k + 1];
      assert ts[..k + 1] == [ts[0]] + ts[1..k + 1];
      SumAppend([ts'[0]], ts[1..k + 1]);
      SumAppend([ts[0]], ts[1..k + 1]);
      assert [ts'[0]][..0] == [] && [ts[0]][..0] == [];
    }
  }

  /** A zero first delta fires now; the rest keep their deadlines. */
  lemma DropZeroHead(ts: seq<TimerEntry>, ds: seq<Deadline>)
    requires ds == Absolute(ts) && ts != [] && ts[0].expire == 0
    ensures ds != [] && ds[0] == Deadline(0, ts[0].job) && ds[1..] == Absolute(ts[1..])
  {
    assert ts[..1] == [ts[0]] && [ts[0]][..0] == [];
    forall k | 0 <= k < |ts| - 1 ensures Absolute(ts[1..])[k] == ds[k + 1] {
      assert ts[1..][..k + 1] == ts[1..k + 2];
      assert ts[..k + 2] == [ts[0]] + ts[1..k + 2];
      SumAppend([ts[0]], ts[1..k + 2]);
    }
    assert Sum(ts[..1]) == 0 by {
      SumAppend([], [ts[0]]);
      assert [] + [ts[0]] == ts[..1];
    }
    assert |ds[1..]| == |Absolute(ts[1..])|;
    assert forall k :: 0 <= k < |ds[1..]| ==> ds[1..][k] == ds[k + 1];
  }
}
