/**
 * The queue-based schedulers of os/sched.cpp.  A process (Proc) has a remaining
 * run time, a priority and the time it was last scheduled for; each scheduler
 * keeps a queue of processes, and Schedule takes the front one, runs it (to the
 * end for the cooperative schedulers, for at most one time slice for the
 * preemptive ones) and hands back the updated process.  Processes are values
 * here: the updated process is returned, and a requeued one is stored again.
 *
 * The ordered schedulers keep their queue under std::stable_sort; StableSort below
 * is the reference definition of that call (an insertion sort), with its sorted,
 * permutation and stability properties proved.  The priority comparators of the
 * source use `>=`, which std::stable_sort does not allow; the model sorts with the
 * corrected `>` and shows separately why the comparator as written is invalid.
 */
module Sched {
  import opened Wrappers

  const DefaultTimeslice: nat := 5

  datatype Proc = Proc(pid: int, remaining: nat, prio: nat, scheduled: nat)

  /** The two orders the ordered schedulers keep: shortest remaining time first, or highest priority first. */
  datatype Order = ByRemaining | ByPrio

  /** The sort key: a process comes before another when its key is smaller. */
  function Key(o: Order, p: Proc): int
  {
    match o
      case ByRemaining => p.remaining
      case ByPrio => -(p.prio as int)
  }

  /** The comparator of CoopSJF and PreemptSRTF. */
  predicate ShorterFirst(a: Proc, b: Proc)
  {
    a.remaining < b.remaining
  }

  /** The comparator of CoopPrio and PreemptPrio as written. */
  predicate HigherFirstAsWritten(a: Proc, b: Proc)
  {
    a.prio >= b.prio
  }

  /** The comparator with `>`: a strict weak order. */
  predicate HigherFirst(a: Proc, b: Proc)
  {
    a.prio > b.prio
  }

  /** The written `>=` comparator says every process goes before itself, so it is not the strict
    * weak order std::stable_sort requires (its behaviour is then undefined). */
  lemma HigherFirstAsWrittenReflexive(p: Proc)
    ensures HigherFirstAsWritten(p, p)
    ensures !HigherFirst(p, p)
  {
  }

  /** The corrected comparator is a strict weak order, and it is exactly the ByPrio key order;
    * ShorterFirst is exactly the ByRemaining key order. */
  lemma ComparatorsAreKeyOrders(a: Proc, b: Proc, c: Proc)
    ensures !HigherFirst(a, a)
    ensures HigherFirst(a, b) && HigherFirst(b, c) ==> HigherFirst(a, c)
    ensures !HigherFirst(a, b) && !HigherFirst(b, a) && !HigherFirst(b, c) && !HigherFirst(c, b) ==>
      !HigherFirst(a, c) && !HigherFirst(c, a)
    ensures HigherFirst(a, b) <==> Key(ByPrio, a) < Key(ByPrio, b)
    ensures ShorterFirst(a, b) <==> Key(ByRemaining, a) < Key(ByRemaining, b)
  {
  }

  predicate Sorted(s: seq<Proc>, o: Order)
  {
    forall i, j :: 0 <= i < j < |s| ==> Key(o, s[i]) <= Key(o, s[j])
  }

  /** Every process of the queue but the last is in order: what the preemptive ordered
    * schedulers keep after requeuing the running process at the back. */
  predicate SortedButLast(s: seq<Proc>, o: Order)
  {
    |s| == 0 || Sorted(s[..|s| - 1], o)
  }

  /** std::stable_sort of sorted `q` followed by `p`: p goes behind every process whose key
    * is not larger than its own. */
  function InsertStable(q: seq<Proc>, p: Proc, o: Order): (r: seq<Proc>)
    ensures |r| == |q| + 1
  {
    if |q| == 0 || Key(o, q[|q| - 1]) <= Key(o, p) then q + [p]
    else InsertStable(q[..|q| - 1], p, o) + [q[|q| - 1]]
  }

  /** std::stable_sort with a comparator that is the key order: insertion sort from the left. */
  function StableSort(q: seq<Proc>, o: Order): (r: seq<Proc>)
    ensures |r| == |q|
  {
    if |q| == 0 then []
    else InsertStable(StableSort(q[..|q| - 1], o), q[|q| - 1], o)
  }

  /** The processes of `s` with key `v`, in queue order. */
  function Only(s: seq<Proc>, o: Order, v: int): seq<Proc>
  {
    if |s| == 0 then []
    else Only(s[..|s| - 1], o, v) + (if Key(o, s[|s| - 1]) == v then [s[|s| - 1]] else [])
  }

  lemma {:induction false} OnlyAppend(s: seq<Proc>, p: Proc, o: Order, v: int)
    ensures Only(s + [p], o, v) == Only(s, o, v) + (if Key(o, p) == v then [p] else [])
  {
    assert (s + [p])[..|s|] == s;
  }

  lemma {:induction false} InsertPerm(q: seq<Proc>, p: Proc, o: Order)
    ensures multiset(InsertStable(q, p, o)) == multiset(q) + multiset{p}
    decreases |q|
  {
    if |q| > 0 && Key(o, q[|q| - 1]) > Key(o, p) {
      InsertPerm(q[..|q| - 1], p, o);
      assert q == q[..|q| - 1] + [q[|q| - 1]];
    }
  }

  /** Inserting into a sorted queue keeps it sorted. */
  lemma {:induction false} InsertSorted(q: seq<Proc>, p: Proc, o: Order)
    requires Sorted(q, o)
    ensures Sorted(InsertStable(q, p, o), o)
    decreases |q|
  {
    if |q| > 0 && Key(o, q[|q| - 1]) > Key(o, p) {
      var init := q[..|q| - 1];
      var last := q[|q| - 1];
      InsertSorted(init, p, o);
      InsertPerm(init, p, o);
      var r := InsertStable(init, p, o);
      KeysBounded(r, init, p, o, Key(o, last));
      assert InsertStable(q, p, o) == r + [last];
    }
  }

  /** A permutation of init with p added keeps every key below a bound they all respect. */
  lemma KeysBounded(r: seq<Proc>, init: seq<Proc>, p: Proc, o: Order, b: int)
    requires multiset(r) == multiset(init) + multiset{p}
    requires forall k :: 0 <= k < |init| ==> Key(o, init[k]) <= b
    requires Key(o, p) <= b
    ensures forall i :: 0 <= i < |r| ==> Key(o, r[i]) <= b
  {
    forall i | 0 <= i < |r|
      ensures Key(o, r[i]) <= b
    {
      assert r[i] in multiset(r);
      if r[i] != p {
        assert r[i] in multiset(init);
        var k :| 0 <= k < |init| && init[k] == r[i];
      }
    }
  }

  /** Inserting `p` adds it to its key's run after every process already there. */
  lemma {:induction false} InsertOnly(q: seq<Proc>, p: Proc, o: Order, v: int)
    ensures Only(InsertStable(q, p, o), o, v) == Only(q, o, v) + (if Key(o, p) == v then [p] else [])
    decreases |q|
  {
    if |q| == 0 || Key(o, q[|q| - 1]) <= Key(o, p) {
      OnlyAppend(q, p, o, v);
    } else {
      InsertOnly(q[..|q| - 1], p, o, v);
      InsertOnlyStep(q, p, o, v);
    }
  }

  /** The step of InsertOnly where `p` passes the last process, whose key is larger. */
  lemma InsertOnlyStep(q: seq<Proc>, p: Proc, o: Order, v: int)
    requires |q| > 0 && Key(o, q[|q| - 1]) > Key(o, p)
    requires Only(InsertStable(q[..|q| - 1], p, o), o, v) == Only(q[..|q| - 1], o, v) + (if Key(o, p) == v then [p] else [])
    ensures Only(InsertStable(q, p, o), o, v) == Only(q, o, v) + (if Key(o, p) == v then [p] else [])
  {
    var init := q[..|q| - 1];
    var last := q[|q| - 1];
    var tail := if Key(o, last) == v then [last] else [];
    var mine := if Key(o, p) == v then [p] else [];
    OnlyAppend(InsertStable(init, p, o), last, o, v);
    assert Only(InsertStable(q, p, o), o, v) == Only(init, o, v) + mine + tail;
    assert Only(q, o, v) == Only(init, o, v) + tail;
    assert tail == [] || mine == [];
  }

  /** std::stable_sort's contract: the result is sorted ... */
  lemma {:induction false} StableSortSorted(q: seq<Proc>, o: Order)
    ensures Sorted(StableSort(q, o), o)
    decreases |q|
  {
    if |q| > 0 {
      StableSortSorted(q[..|q| - 1], o);
      InsertSorted(StableSort(q[..|q| - 1], o), q[|q| - 1], o);
    }
  }

  /** ... a permutation of its input ... */
  lemma {:induction false} StableSortPerm(q: seq<Proc>, o: Order)
    ensures multiset(StableSort(q, o)) == multiset(q)
    decreases |q|
  {
    if |q| > 0 {
      StableSortPerm(q[..|q| - 1], o);
      InsertPerm(StableSort(q[..|q| - 1], o), q[|q| - 1], o);
      assert q == q[..|q| - 1] + [q[|q| - 1]];
    }
  }

  /** ... and stable: the processes with equal keys keep their relative order. */
  lemma {:induction false} StableSortStable(q: seq<Proc>, o: Order, v: int)
    ensures Only(StableSort(q, o), o, v) == Only(q, o, v)
    decreases |q|
  {
    if |q| > 0 {
      StableSortStable(q[..|q| - 1], o, v);
      InsertOnly(StableSort(q[..|q| - 1], o), q[|q| - 1], o, v);
    }
  }

  /** Sorting a sorted queue changes nothing. */
  lemma {:induction false} StableSortSortedFixed(q: seq<Proc>, o: Order)
    requires Sorted(q, o)
    ensures StableSort(q, o) == q
    decreases |q|
  {
    if |q| > 0 {
      var init := q[..|q| - 1];
      var last := q[|q| - 1];
      assert Sorted(init, o);
      StableSortSortedFixed(init, o);
      assert StableSort(q, o) == InsertStable(init, last, o);
      assert |init| == 0 || Key(o, init[|init| - 1]) <= Key(o, last);
      assert q == init + [last];
    }
  }

  /** AddProcess of an ordered scheduler on a sorted queue is a stable insertion. */
  lemma AddToSorted(q: seq<Proc>, p: Proc, o: Order)
    requires Sorted(q, o)
    ensures StableSort(q + [p], o) == InsertStable(q, p, o)
  {
    assert (q + [p])[..|q|] == q;
    StableSortSortedFixed(q, o);
  }

  /** Sum of the remaining times of a queue. */
  function Total(q: seq<Proc>): nat
  {
    if |q| == 0 then 0 else q[0].remaining + Total(q[1..])
  }

  lemma {:induction false} TotalAppend(q: seq<Proc>, p: Proc)
    ensures Total(q + [p]) == Total(q) + p.remaining
    decreases |q|
  {
    if |q| > 0 {
      TotalAppend(q[1..], p);
      assert (q + [p])[1..] == q[1..] + [p];
    }
  }

  lemma {:induction false} TotalInsert(q: seq<Proc>, p: Proc, o: Order)
    ensures Total(InsertStable(q, p, o)) == Total(q) + p.remaining
    decreases |q|
  {
    if |q| == 0 || Key(o, q[|q| - 1]) <= Key(o, p) {
      TotalAppend(q, p);
    } else {
      var init := q[..|q| - 1];
      TotalInsert(init, p, o);
      TotalAppend(InsertStable(init, p, o), q[|q| - 1]);
      TotalAppend(init, q[|q| - 1]);
      assert q == init + [q[|q| - 1]];
    }
  }

  lemma {:induction false} TotalSort(q: seq<Proc>, o: Order)
    ensures Total(StableSort(q, o)) == Total(q)
    decreases |q|
  {
    if |q| > 0 {
      var init := q[..|q| - 1];
      TotalSort(init, o);
      TotalInsert(StableSort(init, o), q[|q| - 1], o);
      TotalAppend(init, q[|q| - 1]);
      assert q == init + [q[|q| - 1]];
    }
  }

  /** The time a schedule result accounts for: the slice of the returned process, or none. */
  function Work(r: Option<Proc>): nat
  {
    if r.Some? then r.value.scheduled else 0
  }

  /** A cooperative scheduler runs the front process to the end and drops it. */
  function CoopStep(q: seq<Proc>): (r: (Option<Proc>, seq<Proc>))
    ensures r.0.None? <==> |q| == 0
    ensures r.0.Some? ==> r.0.value.pid == q[0].pid && r.0.value.prio == q[0].prio
    ensures r.0.Some? ==> r.0.value.scheduled == q[0].remaining && r.0.value.remaining == 0
    ensures r.0.Some? ==> r.1 == q[1..]
    ensures Total(r.1) + Work(r.0) == Total(q)
  {
    if |q| == 0 then (None, q)
    else (Some(q[0].(scheduled := q[0].remaining, remaining := 0)), q[1..])
  }

  /** A preemptive scheduler runs the front process for at most one slice and requeues it at the
    * back while it has time left. */
  function RRStep(q: seq<Proc>, timeslice: nat): (r: (Option<Proc>, seq<Proc>))
    ensures r.0.None? <==> |q| == 0
    ensures |q| == 0 ==> r.1 == q
    ensures r.0.Some? ==> r.0.value.pid == q[0].pid && r.0.value.prio == q[0].prio
    ensures r.0.Some? ==> r.0.value.scheduled == (if q[0].remaining < timeslice then q[0].remaining else timeslice)
    ensures r.0.Some? ==> r.0.value.remaining + r.0.value.scheduled == q[0].remaining
    ensures r.0.Some? ==> |r.1| >= |q| - 1 && r.1[..|q| - 1] == q[1..]
    ensures r.0.Some? ==> (|r.1| == |q| <==> r.0.value.remaining > 0)
    ensures r.0.Some? && |r.1| == |q| ==> r.1[|q| - 1] == r.0.value
    ensures Total(r.1) + Work(r.0) == Total(q)
  {
    if |q| == 0 then (None, q)
    else
      var t := if q[0].remaining < timeslice then q[0].remaining else timeslice;
      var p := q[0].(scheduled := t, remaining := q[0].remaining - t);
      var rest := if p.remaining > 0 then q[1..] + [p] else q[1..];
      TotalAppend(q[1..], p);
      assert Total(q) == q[0].remaining + Total(q[1..]);
      (Some(p), rest)
  }

  /** With a positive slice every step either shortens the remaining work or the queue. */
  lemma RRProgress(q: seq<Proc>, timeslice: nat)
    requires |q| > 0 && timeslice > 0
    ensures var r := RRStep(q, timeslice);
      Total(r.1) < Total(q) || (Total(r.1) == Total(q) && |r.1| < |q|)
  {
  }

  /** With a zero slice a process with time left is requeued unchanged in remaining time and the
    * queue only rotates: the scheduling loop never ends. */
  lemma RRZeroSliceStalls(q: seq<Proc>)
    requires |q| > 0 && q[0].remaining > 0
    ensures var r := RRStep(q, 0);
      |r.1| == |q| && Total(r.1) == Total(q) && Work(r.0) == 0 && r.1[..|q| - 1] == q[1..]
  {
  }

  /** The scheduling loop of the source's test driver over a round-robin scheduler: the processes
    * it hands out, until the queue is empty. */
  function RRRun(q: seq<Proc>, timeslice: nat): (log: seq<Proc>)
    requires timeslice > 0
    ensures |q| == 0 <==> |log| == 0
    decreases Total(q), |q|
  {
    if |q| == 0 then []
    else
      var r := RRStep(q, timeslice);
      RRProgress(q, timeslice);
      [r.0.value] + RRRun(r.1, timeslice)
  }

  function SumScheduled(log: seq<Proc>): nat
  {
    if |log| == 0 then 0 else log[0].scheduled + SumScheduled(log[1..])
  }

  /** The number of entries that report a finished process. */
  function Finished(log: seq<Proc>): nat
  {
    if |log| == 0 then 0 else (if log[0].remaining == 0 then 1 else 0) + Finished(log[1..])
  }

  /** Running round-robin to the end hands out exactly the total remaining time, and reports
    * every process finished exactly once. */
  lemma {:induction false} RRRunAccounts(q: seq<Proc>, timeslice: nat)
    requires timeslice > 0
    ensures SumScheduled(RRRun(q, timeslice)) == Total(q)
    ensures Finished(RRRun(q, timeslice)) == |q|
    decreases Total(q), |q|
  {
    if |q| > 0 {
      var r := RRStep(q, timeslice);
      RRProgress(q, timeslice);
      RRRunAccounts(r.1, timeslice);
    }
  }

  /** The step of PreemptSRTF and PreemptPrio: a round-robin step, then, if the process was
    * requeued and others wait, a stable sort of every process but the requeued one. */
  function ResortStep(q: seq<Proc>, timeslice: nat, o: Order): (r: (Option<Proc>, seq<Proc>))
    ensures r.0 == RRStep(q, timeslice).0
    ensures multiset(r.1) == multiset(RRStep(q, timeslice).1)
    ensures |r.1| == |RRStep(q, timeslice).1|
    ensures r.0.Some? && |r.1| == |q| ==> r.1[|q| - 1] == r.0.value
    ensures Total(r.1) + Work(r.0) == Total(q)
  {
    var s := RRStep(q, timeslice);
    if s.0.Some? && s.0.value.remaining > 0 && |s.1| > 1 then
      var others := s.1[..|s.1| - 1];
      StableSortPerm(others, o);
      TotalSort(others, o);
      TotalAppend(StableSort(others, o), s.1[|s.1| - 1]);
      TotalAppend(others, s.1[|s.1| - 1]);
      assert s.1 == others + [s.1[|s.1| - 1]];
      (s.0, StableSort(others, o) + [s.1[|s.1| - 1]])
    else s
  }

  /** The preemptive ordered schedulers keep all but the last process in order. */
  lemma ResortKeepsOrder(q: seq<Proc>, timeslice: nat, o: Order)
    requires SortedButLast(q, o)
    ensures SortedButLast(ResortStep(q, timeslice, o).1, o)
  {
    var s := RRStep(q, timeslice);
    var r := ResortStep(q, timeslice, o);
    if s.0.Some? && s.0.value.remaining > 0 && |s.1| > 1 {
      StableSortSorted(s.1[..|s.1| - 1], o);
      assert r.1[..|r.1| - 1] == StableSort(s.1[..|s.1| - 1], o);
    } else if |q| > 1 && s.0.value.remaining == 0 {
      var a := r.1[..|r.1| - 1];
      assert a == q[1..|q| - 1];
      forall i, j | 0 <= i < j < |a|
        ensures Key(o, a[i]) <= Key(o, a[j])
      {
        assert a[i] == q[..|q| - 1][i + 1] && a[j] == q[..|q| - 1][j + 1];
      }
    }
  }

  /** On a queue that is fully sorted, the re-sort leaves every waiting process where it was. */
  lemma ResortOnSortedIsRotation(q: seq<Proc>, timeslice: nat, o: Order)
    requires Sorted(q, o) && |q| > 0
    ensures ResortStep(q, timeslice, o).1 == RRStep(q, timeslice).1
  {
    var s := RRStep(q, timeslice);
    if s.0.value.remaining > 0 && |s.1| > 1 {
      assert s.1[..|s.1| - 1] == q[1..];
      StableSortSortedFixed(q[1..], o);
      assert s.1 == q[1..] + [s.1[|s.1| - 1]];
    }
  }

  class CoopFCFS {
    var procs: seq<Proc>

    constructor()
      ensures procs == []
    {
      procs := [];
    }

    method AddProcess(p: Proc)
      modifies this
      ensures procs == old(procs) + [p]
    {
      procs := procs + [p];
    }

    method Schedule() returns (r: Option<Proc>)
      modifies this
      ensures (r, procs) == CoopStep(old(procs))
    {
      if |procs| == 0 {
        return None;
      }
      var p := procs[0];
      p := p.(scheduled := p.remaining);
      p := p.(remaining := 0);
      procs := procs[1..];
      return Some(p);
    }
  }

  /** CoopSJF (o == ByRemaining) and CoopPrio (o == ByPrio), which differ only in the comparator. */
  class CoopOrdered {
    const order: Order
    var procs: seq<Proc>

    ghost predicate Valid()
      reads this
    {
      Sorted(procs, order)
    }

    constructor(order: Order)
      ensures Valid() && procs == [] && this.order == order
    {
      this.order := order;
      procs := [];
    }

    method AddProcess(p: Proc)
      requires Valid()
      modifies this
      ensures Valid()
      ensures procs == StableSort(old(procs) + [p], order) && procs == InsertStable(old(procs), p, order)
    {
      procs := procs + [p];
      StableSortSorted(procs, order);
      AddToSorted(old(procs), p, order);
      procs := StableSort(procs, order);
    }

    method Schedule() returns (r: Option<Proc>)
      requires Valid()
      modifies this
      ensures Valid()
      ensures (r, procs) == CoopStep(old(procs))
    {
      if |procs| == 0 {
        return None;
      }
      var p := procs[0];
      p := p.(scheduled := p.remaining);
      p := p.(remaining := 0);
      procs := procs[1..];
      return Some(p);
    }
  }

  class PreemptRR {
    const timeslice: nat
    var procs: seq<Proc>

    constructor(timeslice: nat)
      ensures procs == [] && this.timeslice == timeslice
    {
      this.timeslice := timeslice;
      procs := [];
    }

    method AddProcess(p: Proc)
      modifies this
      ensures procs == old(procs) + [p]
    {
      procs := procs + [p];
    }

    method Schedule() returns (r: Option<Proc>)
      modifies this
      ensures (r, procs) == RRStep(old(procs), timeslice)
    {
      if |procs| == 0 {
        return None;
      }
      var t := if procs[0].remaining < timeslice then procs[0].remaining else timeslice;
      var p := procs[0].(scheduled := t, remaining := procs[0].remaining - t);
      procs := procs[1..];
      if p.remaining > 0 {
        procs := procs + [p];
      }
      return Some(p);
    }
  }

  /** PreemptSRTF (o == ByRemaining) and PreemptPrio (o == ByPrio). */
  class PreemptOrdered {
    const order: Order
    const timeslice: nat
    var procs: seq<Proc>

    ghost predicate Valid()
      reads this
    {
      SortedButLast(procs, order)
    }

    constructor(order: Order, timeslice: nat)
      ensures Valid() && procs == [] && this.order == order && this.timeslice == timeslice
    {
      this.order := order;
      this.timeslice := timeslice;
      procs := [];
    }

    method AddProcess(p: Proc)
      modifies this
      ensures Valid()
      ensures procs == StableSort(old(procs) + [p], order)
    {
      procs := StableSort(procs + [p], order);
      StableSortSorted(old(procs) + [p], order);
    }

    method Schedule() returns (r: Option<Proc>)
      requires Valid()
      modifies this
      ensures Valid()
      ensures (r, procs) == ResortStep(old(procs), timeslice, order)
    {
      ResortKeepsOrder(procs, timeslice, order);
      if |procs| == 0 {
        return None;
      }
      var t := if procs[0].remaining < timeslice then procs[0].remaining else timeslice;
      var p := procs[0].(scheduled := t, remaining := procs[0].remaining - t);
      procs := procs[1..];
      if p.remaining > 0 {
        procs := procs + [p];
        if |procs| > 1 {
          procs := StableSort(procs[..|procs| - 1], order) + [procs[|procs| - 1]];
        }
      }
      return Some(p);
    }
  }

  /** The test driver's loop over a round-robin scheduler: schedule until nothing is left. */
  method DrainRR(s: PreemptRR) returns (log: seq<Proc>)
    requires s.timeslice > 0
    modifies s
    ensures log == RRRun(old(s.procs), s.timeslice) && s.procs == []
  {
    log := [];
    while true
      invariant log + RRRun(s.procs, s.timeslice) == RRRun(old(s.procs), s.timeslice)
      decreases Total(s.procs), |s.procs|
    {
      ghost var before := s.procs;
      var r := s.Schedule();
      if r.None? {
        break;
      }
      RRProgress(before, s.timeslice);
      log := log + [r.value];
    }
  }
}
