/**
 * The Banker's algorithm of os/banker.cpp.  Matrices are indexed (resource, process):
 * `size1` is the number of resources and `size2` the number of processes.  A pass
 * visits the processes in index order and lets every process that has not yet
 * terminated, and whose remaining need fits into the available resources, terminate
 * and give back what it holds; passes repeat until one terminates nothing or every
 * process has terminated.  Resource amounts are `int` here.
 */
module Banker {

  datatype Mat = Mat(size1: nat, size2: nat, e: seq<seq<int>>)

  /** `m` has size1 rows of size2 entries each. */
  predicate Shaped(m: Mat)
  {
    |m.e| == m.size1 && forall i :: 0 <= i < m.size1 ==> |m.e[i]| == m.size2
  }

  /** needed_alloc = max_alloc - cur_alloc, entry by entry. */
  function Needed(maxAlloc: Mat, curAlloc: Mat): (r: Mat)
    requires Shaped(maxAlloc) && Shaped(curAlloc)
    requires curAlloc.size1 == maxAlloc.size1 && curAlloc.size2 == maxAlloc.size2
    ensures Shaped(r) && r.size1 == maxAlloc.size1 && r.size2 == maxAlloc.size2
    ensures forall i, j :: 0 <= i < r.size1 && 0 <= j < r.size2 ==>
      r.e[i][j] + curAlloc.e[i][j] == maxAlloc.e[i][j]
  {
    Mat(maxAlloc.size1, maxAlloc.size2,
      seq(maxAlloc.size1, i requires 0 <= i < maxAlloc.size1 =>
        seq(maxAlloc.size2, j requires 0 <= j < maxAlloc.size2 => maxAlloc.e[i][j] - curAlloc.e[i][j])))
  }

  /** Process `p` can run to the end: its need for every resource fits into what is available. */
  predicate CanRun(needed: Mat, avail: seq<int>, p: nat)
    requires Shaped(needed) && |avail| == needed.size1 && p < needed.size2
  {
    forall res :: 0 <= res < needed.size1 ==> needed.e[res][p] <= avail[res]
  }

  /** `avail` after process `p` hands back its column of `cur`. */
  function Release(avail: seq<int>, cur: Mat, p: nat): (r: seq<int>)
    requires Shaped(cur) && |avail| == cur.size1 && p < cur.size2
    ensures |r| == |avail|
    ensures forall res :: 0 <= res < |r| ==> r[res] - avail[res] == cur.e[res][p]
  {
    seq(|avail|, res requires 0 <= res < |avail| => avail[res] + cur.e[res][p])
  }

  /** What is available after the processes of `ts` have terminated, in that order. */
  function AvailAfter(avail0: seq<int>, cur: Mat, ts: seq<nat>): (r: seq<int>)
    requires Shaped(cur) && |avail0| == cur.size1
    requires forall k :: 0 <= k < |ts| ==> ts[k] < cur.size2
    ensures |r| == |avail0|
  {
    if |ts| == 0 then avail0
    else Release(AvailAfter(avail0, cur, ts[..|ts| - 1]), cur, ts[|ts| - 1])
  }

  predicate NoDup(s: seq<nat>)
  {
    forall i, j :: 0 <= i < j < |s| ==> s[i] != s[j]
  }

  /** `ts` is a safe sequence: each process in it could run with what the initial resources and
    * the processes before it provide. */
  predicate Safe(needed: Mat, cur: Mat, avail0: seq<int>, ts: seq<nat>)
    requires Shaped(needed) && Shaped(cur) && needed.size1 == cur.size1 && needed.size2 == cur.size2
    requires |avail0| == cur.size1
    requires forall k :: 0 <= k < |ts| ==> ts[k] < cur.size2
  {
    forall k :: 0 <= k < |ts| ==> CanRun(needed, AvailAfter(avail0, cur, ts[..k]), ts[k])
  }

  /** The entries of `s` as a set. */
  function SetOf(s: seq<nat>): (r: set<nat>)
    ensures forall x :: x in r <==> x in s
  {
    if |s| == 0 then {}
    else
      var r := SetOf(s[..|s| - 1]) + {s[|s| - 1]};
      assert forall x :: x in s <==> x in s[..|s| - 1] || x == s[|s| - 1];
      r
  }

  lemma {:induction false} SeqSetCard(s: seq<nat>)
    requires NoDup(s)
    ensures |SetOf(s)| == |s|
    decreases |s|
  {
    if |s| > 0 {
      var init := s[..|s| - 1];
      var last := s[|s| - 1];
      assert NoDup(init);
      SeqSetCard(init);
      assert last !in init;
    }
  }

  /** The indices below n. */
  function Below(n: nat): (r: set<nat>)
    ensures |r| == n
    ensures forall x: int :: x in r <==> 0 <= x < n
  {
    if n == 0 then {}
    else
      var b := Below(n - 1);
      assert n - 1 !in b;
      b + {n - 1}
  }

  lemma {:induction false} SubsetCard<T>(a: set<T>, b: set<T>)
    requires a <= b
    ensures |a| <= |b|
    decreases |a|
  {
    if a != {} {
      var x :| x in a;
      SubsetCard(a - {x}, b - {x});
    }
  }

  /** A duplicate-free sequence of indices below n has at most n entries, and exactly n only when
    * every index occurs. */
  lemma DistinctBelow(s: seq<nat>, n: nat)
    requires NoDup(s) && forall k :: 0 <= k < |s| ==> s[k] < n
    ensures |s| <= n
    ensures |s| == n ==> forall p :: 0 <= p < n ==> p in s
  {
    var a := SetOf(s);
    var b := Below(n);
    SeqSetCard(s);
    SubsetCard(a, b);
    if |s| == n {
      forall p | 0 <= p < n
        ensures p in s
      {
        if p !in s {
          SubsetCard(a, b - {p});
        }
      }
    }
  }

  lemma AvailAfterStep(avail0: seq<int>, cur: Mat, ts: seq<nat>, p: nat)
    requires Shaped(cur) && |avail0| == cur.size1 && p < cur.size2
    requires forall k :: 0 <= k < |ts| ==> ts[k] < cur.size2
    ensures AvailAfter(avail0, cur, ts + [p]) == Release(AvailAfter(avail0, cur, ts), cur, p)
  {
    assert (ts + [p])[..|ts|] == ts;
  }

  /** Appending a process that can run keeps the sequence safe. */
  lemma SafeStep(needed: Mat, cur: Mat, avail0: seq<int>, ts: seq<nat>, p: nat)
    requires Shaped(needed) && Shaped(cur) && needed.size1 == cur.size1 && needed.size2 == cur.size2
    requires |avail0| == cur.size1 && p < cur.size2
    requires forall k :: 0 <= k < |ts| ==> ts[k] < cur.size2
    requires Safe(needed, cur, avail0, ts)
    requires CanRun(needed, AvailAfter(avail0, cur, ts), p)
    ensures Safe(needed, cur, avail0, ts + [p])
  {
    var t := ts + [p];
    forall k | 0 <= k < |t|
      ensures CanRun(needed, AvailAfter(avail0, cur, t[..k]), t[k])
    {
      if k < |ts| {
        assert t[..k] == ts[..k];
      } else {
        assert t[..k] == ts;
      }
    }
  }

  /** The invariant of banker's loops: a safe, duplicate-free termination order so far, and the
    * resources it leaves available. */
  predicate Progress(needed: Mat, cur: Mat, availRes: seq<int>, avail: seq<int>, ts: seq<nat>)
    requires Shaped(needed) && Shaped(cur) && needed.size1 == cur.size1 && needed.size2 == cur.size2
    requires |availRes| == cur.size1
  {
    NoDup(ts) && (forall k :: 0 <= k < |ts| ==> ts[k] < cur.size2) &&
    avail == AvailAfter(availRes, cur, ts) && Safe(needed, cur, availRes, ts)
  }

  /** Letting a process that has not terminated and can run terminate keeps the invariant. */
  lemma ProgressStep(needed: Mat, cur: Mat, availRes: seq<int>, avail: seq<int>, ts: seq<nat>, p: nat)
    requires Shaped(needed) && Shaped(cur) && needed.size1 == cur.size1 && needed.size2 == cur.size2
    requires |availRes| == cur.size1 && p < cur.size2
    requires Progress(needed, cur, availRes, avail, ts)
    requires p !in ts && CanRun(needed, avail, p)
    ensures Progress(needed, cur, availRes, Release(avail, cur, p), ts + [p])
  {
    SafeStep(needed, cur, availRes, ts, p);
    AvailAfterStep(availRes, cur, ts, p);
    var t := ts + [p];
    forall i, j | 0 <= i < j < |t|
      ensures t[i] != t[j]
    {
      if j == |ts| {
        assert t[i] == ts[i];
      }
    }
  }

  /** No process below n that is missing from `ts` can run with `avail`. */
  predicate Stuck(needed: Mat, avail: seq<int>, ts: seq<nat>, n: nat)
    requires Shaped(needed) && |avail| == needed.size1 && n <= needed.size2
  {
    forall q :: 0 <= q < n && q !in ts ==> !CanRun(needed, avail, q)
  }

  lemma StuckStep(needed: Mat, avail: seq<int>, ts: seq<nat>, n: nat)
    requires Shaped(needed) && |avail| == needed.size1 && n < needed.size2
    requires Stuck(needed, avail, ts, n)
    requires n in ts || !CanRun(needed, avail, n)
    ensures Stuck(needed, avail, ts, n + 1)
  {
  }

  /** One pass of banker's outer loop over every process in index order.  It terminates nothing
    * exactly when no process that is still running can run. */
  method Pass(needed: Mat, cur: Mat, availRes: seq<int>, avail: seq<int>, ts: seq<nat>)
    returns (avail': seq<int>, ts': seq<nat>, numTerminated: nat)
    requires Shaped(needed) && Shaped(cur) && needed.size1 == cur.size1 && needed.size2 == cur.size2
    requires |availRes| == cur.size1
    requires Progress(needed, cur, availRes, avail, ts)
    ensures Progress(needed, cur, availRes, avail', ts')
    ensures |ts'| == |ts| + numTerminated && ts'[..|ts|] == ts
    ensures numTerminated == 0 ==> ts' == ts && avail' == avail
    ensures numTerminated == 0 <==> Stuck(needed, avail, ts, cur.size2)
  {
    avail', ts' := avail, ts;
    numTerminated := 0;
    ghost var first: nat := 0;
    for proc := 0 to cur.size2
      invariant Progress(needed, cur, availRes, avail', ts')
      invariant |ts'| == |ts| + numTerminated && ts'[..|ts|] == ts
      invariant numTerminated == 0 ==> ts' == ts && avail' == avail
      invariant numTerminated == 0 ==> Stuck(needed, avail, ts, proc)
      invariant numTerminated > 0 ==> first < proc && first !in ts && CanRun(needed, avail, first)
    {
      ghost var before := ts';
      var terminated;
      avail', ts', terminated := Visit(needed, cur, availRes, avail', ts', proc);
      if numTerminated == 0 && !terminated {
        StuckStep(needed, avail, ts, proc);
      }
      if terminated {
        if numTerminated == 0 {
          first := proc;
        }
        assert ts'[..|ts|] == before[..|ts|];
        numTerminated := numTerminated + 1;
      }
    }
  }

  /** The body of a pass for process `proc`: skip it when it has terminated already, otherwise let
    * it terminate and release what it holds when its need fits. */
  method Visit(needed: Mat, cur: Mat, availRes: seq<int>, avail: seq<int>, ts: seq<nat>, proc: nat)
    returns (avail': seq<int>, ts': seq<nat>, terminated: bool)
    requires Shaped(needed) && Shaped(cur) && needed.size1 == cur.size1 && needed.size2 == cur.size2
    requires |availRes| == cur.size1 && proc < cur.size2
    requires Progress(needed, cur, availRes, avail, ts)
    ensures Progress(needed, cur, availRes, avail', ts')
    ensures terminated <==> proc !in ts && CanRun(needed, avail, proc)
    ensures terminated ==> avail' == Release(avail, cur, proc) && ts' == ts + [proc]
    ensures !terminated ==> avail' == avail && ts' == ts
  {
    avail', ts', terminated := avail, ts, false;
    if proc in ts {
      return;
    }
    var canAlloc := CanAlloc(needed, avail, proc);
    if canAlloc {
      ProgressStep(needed, cur, availRes, avail, ts, proc);
      avail' := Release(avail, cur, proc);
      ts' := ts + [proc];
      terminated := true;
    }
  }

  /** banker: whether the processes deadlock, and the order in which they terminate.  The order
    * is safe and has no repeats; a deadlock is reported exactly when some process is missing
    * from it, and then none of the missing processes can run with what is finally available. */
  method BankerAlgo(availRes: seq<int>, maxAlloc: Mat, curAlloc: Mat) returns (deadlock: bool, terminationSeq: seq<nat>)
    requires Shaped(maxAlloc) && Shaped(curAlloc)
    requires curAlloc.size1 == maxAlloc.size1 && curAlloc.size2 == maxAlloc.size2
    requires |availRes| == maxAlloc.size1
    ensures NoDup(terminationSeq) && forall k :: 0 <= k < |terminationSeq| ==> terminationSeq[k] < maxAlloc.size2
    ensures Safe(Needed(maxAlloc, curAlloc), curAlloc, availRes, terminationSeq)
    ensures deadlock <==> |terminationSeq| < maxAlloc.size2
    ensures !deadlock ==> forall p :: 0 <= p < maxAlloc.size2 ==> p in terminationSeq
    ensures deadlock ==> forall p :: 0 <= p < maxAlloc.size2 && p !in terminationSeq ==>
      !CanRun(Needed(maxAlloc, curAlloc), AvailAfter(availRes, curAlloc, terminationSeq), p)
  {
    var numProcs := maxAlloc.size2;
    var needed := Needed(maxAlloc, curAlloc);
    var avail := availRes;
    terminationSeq := [];
    while true
      invariant Progress(needed, curAlloc, availRes, avail, terminationSeq)
      decreases numProcs - |terminationSeq|
    {
      DistinctBelow(terminationSeq, numProcs);
      var numTerminated;
      ghost var before := terminationSeq;
      ghost var availBefore := avail;
      avail, terminationSeq, numTerminated := Pass(needed, curAlloc, availRes, avail, terminationSeq);
      DistinctBelow(terminationSeq, numProcs);
      if numTerminated == 0 || |terminationSeq| == numProcs {
        break;
      }
    }
    DistinctBelow(terminationSeq, numProcs);
    deadlock := |terminationSeq| < numProcs;
  }

  /** The inner loop of banker: whether every need of `proc` fits, stopping at the first that does not. */
  method CanAlloc(needed: Mat, avail: seq<int>, proc: nat) returns (canAlloc: bool)
    requires Shaped(needed) && |avail| == needed.size1 && proc < needed.size2
    ensures canAlloc <==> CanRun(needed, avail, proc)
  {
    canAlloc := true;
    for res := 0 to needed.size1
      invariant canAlloc <==> forall r :: 0 <= r < res ==> needed.e[r][proc] <= avail[r]
    {
      if needed.e[res][proc] > avail[res] {
        canAlloc := false;
        break;
      }
    }
  }
}
