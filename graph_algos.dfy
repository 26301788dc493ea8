/**
 * Dijkstra and Bellman-Ford over the generic graph interface of libs/graph_algos.h.
 * The graph is given by its vertex identifiers and its weight matrix: GetWeight(i, j)
 * is W[i][j], and j is a neighbour of i (GetNeighbours(i)) when W[i][j] != 0.
 * Weights are the adjacency matrix's unsigned default, modelled as `nat`.
 */
module GraphAlgos {
  import opened Wrappers
  import GraphConts

  type Weight = nat

  /** numeric_limits<unsigned int>::max() / 2, the "infinite" distance. */
  const Infinity: int := 0x7fff_ffff

  /** A consistent graph: one identifier per row of a square weight matrix. */
  predicate Graph(ids: seq<string>, W: seq<seq<Weight>>)
  {
    |ids| == |W| && forall i :: 0 <= i < |W| ==> |W[i]| == |W|
  }

  /** The distance a vertex starts with. */
  function InitDist(s: nat, v: int): int
  {
    if v == s then 0 else Infinity
  }

  /** The vertex indices 0 .. n-1. */
  function Below(n: nat): (r: set<nat>)
    ensures forall v: int :: v in r <==> 0 <= v < n
  {
    if n == 0 then {} else Below(n - 1) + {n - 1}
  }

  // ---------------------------------------------------------------------------
  // dijk
  // ---------------------------------------------------------------------------

  /** The distance and predecessor vectors form a shortest-path-tree candidate:
    * distances lie between 0 and their initial value, a vertex has a predecessor iff
    * its distance was lowered, and a predecessor edge never overestimates. */
  ghost predicate Tree(W: seq<seq<Weight>>, s: nat, d: seq<int>, p: seq<Option<nat>>)
    requires forall k :: 0 <= k < |W| ==> |W[k]| == |W|
  {
    && |d| == |p| == |W| && s < |W|
    && d[s] == 0 && p[s] == None
    && (forall v :: 0 <= v < |W| ==> 0 <= d[v] <= InitDist(s, v))
    && (forall v {:trigger p[v]} :: 0 <= v < |W| ==> (p[v] == None <==> d[v] == InitDist(s, v)))
    && (forall v :: 0 <= v < |W| && p[v].Some? ==>
          p[v].value < |W| && W[p[v].value][v] != 0 && d[p[v].value] + W[p[v].value][v] <= d[v])
  }

  /** Every popped vertex u (other than `except`) has had its edges relaxed with the
    * distance it had when popped, and no distance has grown since. */
  ghost predicate Settled(W: seq<seq<Weight>>, d: seq<int>, popped: map<nat, int>, except: int)
    requires forall k :: 0 <= k < |W| ==> |W[k]| == |W|
    requires |d| == |W|
  {
    && (forall u :: u in popped ==> u < |W| && d[u] <= popped[u])
    && (forall u, v :: u in popped && u != except && 0 <= v < |W| && W[u][v] != 0 ==> d[v] <= popped[u] + W[u][v])
  }

  /**
   * dijk: pops every vertex once and relaxes its outgoing edges, replacing a
   * predecessor only on a strict improvement.  The priority queue compares the
   * live `dists` entries, which change while the vertices sit in the heap, so its
   * pop order is not a function of the distances; the model pops any remaining
   * vertex.  Besides the predecessors, the distance vector is returned.
   * `popped[u]` (ghost) is u's distance at the moment it left the queue.
   */
  method Dijk(ids: seq<string>, W: seq<seq<Weight>>, startvert: string)
    returns (preds: seq<Option<nat>>, dists: seq<int>, ghost popped: map<nat, int>)
    requires Graph(ids, W)
    ensures startvert !in ids ==> preds == [] && dists == []
    ensures startvert in ids ==> |preds| == |dists| == |W|
    ensures startvert in ids ==>
      var s := GraphConts.IndexOf(ids, startvert).value;
      popped.Keys == Below(|W|) && Tree(W, s, dists, preds) && Settled(W, dists, popped, -1)
  {
    var start := GraphConts.IndexOf(ids, startvert);
    popped := map[];
    if start.None? {
      return [], [], popped;
    }
    var s := start.value;
    var N := |W|;
    var d: seq<int> := [];
    var p: seq<Option<nat>> := seq(N, _ => None);
    for v := 0 to N
      invariant |d| == v
      invariant forall k :: 0 <= k < v ==> d[k] == InitDist(s, k)
    {
      d := d + [if v == s then 0 else Infinity];
    }

    var remaining := Below(N);
    while remaining != {}
      invariant remaining <= Below(N)
      invariant forall v :: 0 <= v < N ==> (v in remaining <==> v !in popped)
      invariant Tree(W, s, d, p) && Settled(W, d, popped, -1)
      decreases |remaining|
    {
      var vert :| vert in remaining;
      remaining := remaining - {vert};
      popped := popped[vert := d[vert]];
      d, p := RelaxFrom(W, s, d, p, vert, popped);
    }
    assert popped.Keys == Below(N);
    preds := p;
    dists := d;
  }

  /** The inner loop of dijk: relax every outgoing edge of the popped vertex. */
  method RelaxFrom(W: seq<seq<Weight>>, s: nat, d0: seq<int>, p0: seq<Option<nat>>, vert: nat, ghost popped: map<nat, int>)
    returns (d: seq<int>, p: seq<Option<nat>>)
    requires forall k :: 0 <= k < |W| ==> |W[k]| == |W|
    requires Tree(W, s, d0, p0)
    requires vert in popped && vert < |W| && popped[vert] == d0[vert] && Settled(W, d0, popped, vert)
    ensures Tree(W, s, d, p) && Settled(W, d, popped, -1)
  {
    d, p := d0, p0;
    var N := |W|;
    for n := 0 to N
      invariant Tree(W, s, d, p) && Settled(W, d, popped, vert)
      invariant d[vert] == popped[vert]
      invariant RelaxedUpTo(W, d, vert, popped[vert], n)
    {
      d, p := RelaxEdge(W, s, d, p, vert, n, popped);
    }
    SettledAll(W, d, popped, vert);
  }

  /** The edges from vert to the vertices below n do not overestimate from distance b. */
  ghost predicate RelaxedUpTo(W: seq<seq<Weight>>, d: seq<int>, vert: nat, b: int, n: nat)
    requires forall k :: 0 <= k < |W| ==> |W[k]| == |W|
    requires |d| == |W| && vert < |W| && n <= |W|
  {
    forall v :: 0 <= v < n && W[vert][v] != 0 ==> d[v] <= b + W[vert][v]
  }

  /** Once all edges of vert are relaxed, vert is settled like the other popped vertices. */
  lemma SettledAll(W: seq<seq<Weight>>, d: seq<int>, popped: map<nat, int>, vert: nat)
    requires forall k :: 0 <= k < |W| ==> |W[k]| == |W|
    requires |d| == |W| && vert < |W| && vert in popped
    requires Settled(W, d, popped, vert) && RelaxedUpTo(W, d, vert, popped[vert], |W|)
    ensures Settled(W, d, popped, -1)
  {
  }

  /** One round of the inner loop of dijk: the edge vert -> n lowers d[n] and makes vert its
    * predecessor when it is an edge and the path through vert is strictly shorter.  The round
    * keeps the loop's invariants, with one more neighbour relaxed. */
  method RelaxEdge(W: seq<seq<Weight>>, s: nat, d0: seq<int>, p0: seq<Option<nat>>, vert: nat, n: nat,
                   ghost popped: map<nat, int>) returns (d: seq<int>, p: seq<Option<nat>>)
    requires forall k :: 0 <= k < |W| ==> |W[k]| == |W|
    requires Tree(W, s, d0, p0) && vert < |W| && n < |W|
    requires vert in popped && d0[vert] == popped[vert] && Settled(W, d0, popped, vert)
    requires RelaxedUpTo(W, d0, vert, popped[vert], n)
    ensures W[vert][n] != 0 && d0[vert] + W[vert][n] < d0[n] ==>
              d == d0[n := d0[vert] + W[vert][n]] && p == p0[n := Some(vert)]
    ensures !(W[vert][n] != 0 && d0[vert] + W[vert][n] < d0[n]) ==> d == d0 && p == p0
    ensures Tree(W, s, d, p) && Settled(W, d, popped, vert) && d[vert] == popped[vert]
    ensures RelaxedUpTo(W, d, vert, popped[vert], n + 1)
  {
    d, p := d0, p0;
    if W[vert][n] != 0 {
      var w := W[vert][n];
      if d[vert] + w < d[n] {
        RelaxKeeps(W, s, d, p, vert, n, popped);
        d := d[n := d[vert] + w];
        p := p[n := Some(vert)];
      }
    }
  }

  /** Lowering d[n] through the edge vert -> n keeps both invariants. */
  lemma RelaxKeeps(W: seq<seq<Weight>>, s: nat, d: seq<int>, p: seq<Option<nat>>, vert: nat, n: nat, popped: map<nat, int>)
    requires forall k :: 0 <= k < |W| ==> |W[k]| == |W|
    requires Tree(W, s, d, p) && vert < |W| && n < |W|
    requires W[vert][n] != 0 && d[vert] + W[vert][n] < d[n]
    requires Settled(W, d, popped, vert)
    ensures Tree(W, s, d[n := d[vert] + W[vert][n]], p[n := Some(vert)])
    ensures Settled(W, d[n := d[vert] + W[vert][n]], popped, vert)
  {
  }

  // ---------------------------------------------------------------------------
  // bellman
  // ---------------------------------------------------------------------------

  /** The best of prev[v] and prev[k] + W[k][v] over the incoming neighbours k < n,
    * with the source's strict comparison. */
  function BestIn(W: seq<seq<Weight>>, prev: seq<int>, v: nat, n: nat): (r: int)
    requires |prev| == |W| && v < |W| && n <= |W|
    requires forall i :: 0 <= i < |W| ==> |W[i]| == |W|
    ensures r <= prev[v]
    ensures forall k :: 0 <= k < n && W[k][v] != 0 ==> r <= prev[k] + W[k][v]
  {
    if n == 0 then prev[v]
    else
      var b := BestIn(W, prev, v, n - 1);
      if W[n - 1][v] != 0 && prev[n - 1] + W[n - 1][v] < b then prev[n - 1] + W[n - 1][v] else b
  }

  /** The best value is attained: it is prev[v] (k = -1) or comes through the edge k -> v. */
  lemma {:induction false} BestInAttained(W: seq<seq<Weight>>, prev: seq<int>, v: nat, n: nat) returns (k: int)
    requires |prev| == |W| && v < |W| && n <= |W|
    requires forall i :: 0 <= i < |W| ==> |W[i]| == |W|
    ensures -1 <= k < n
    ensures k == -1 ==> BestIn(W, prev, v, n) == prev[v]
    ensures k >= 0 ==> W[k][v] != 0 && BestIn(W, prev, v, n) == prev[k] + W[k][v]
  {
    if n == 0 {
      k := -1;
    } else if W[n - 1][v] != 0 && prev[n - 1] + W[n - 1][v] < BestIn(W, prev, v, n - 1) {
      k := n - 1;
    } else {
      k := BestInAttained(W, prev, v, n - 1);
    }
  }

  /** Row i of bellman's distance matrix. */
  function Row(W: seq<seq<Weight>>, s: nat, i: nat): (r: seq<int>)
    requires forall k :: 0 <= k < |W| ==> |W[k]| == |W|
    ensures |r| == |W|
  {
    if i == 0 then seq(|W|, v => InitDist(s, v))
    else
      var prev := Row(W, s, i - 1);
      seq(|W|, v requires 0 <= v < |W| => BestIn(W, prev, v, |W|))
  }

  /** bellman: row 0 holds the initial distances, and each later row copies the row
    * above and relaxes over the incoming neighbours.  An unknown start vertex yields
    * an empty matrix. */
  method Bellman(ids: seq<string>, W: seq<seq<Weight>>, startvert: string) returns (dists: array2<int>)
    requires Graph(ids, W)
    ensures fresh(dists)
    ensures startvert !in ids ==> dists.Length0 == 0 && dists.Length1 == 0
    ensures startvert in ids ==> dists.Length0 == |W| && dists.Length1 == |W|
    ensures startvert in ids ==> forall i, v :: 0 <= i < |W| && 0 <= v < |W| ==>
      dists[i, v] == Row(W, GraphConts.IndexOf(ids, startvert).value, i)[v]
  {
    var start := GraphConts.IndexOf(ids, startvert);
    if start.None? {
      dists := new int[0, 0];
      return;
    }
    var s := start.value;
    var N := |W|;
    dists := new int[N, N]((_, _) => 0);
    for v := 0 to N
      invariant forall k :: 0 <= k < v ==> dists[0, k] == InitDist(s, k)
    {
      dists[0, v] := if v == s then 0 else Infinity;
    }
    for i := 1 to N
      invariant forall r, k :: 0 <= r < i && 0 <= k < N ==> dists[r, k] == Row(W, s, r)[k]
    {
      ghost var prev := Row(W, s, i - 1);
      FillRow(W, prev, dists, i);
      assert forall k :: 0 <= k < N ==> Row(W, s, i)[k] == BestIn(W, prev, k, N);
    }
  }

  /** One round of bellman: row i from row i - 1, which holds `prev`. */
  method FillRow(W: seq<seq<Weight>>, ghost prev: seq<int>, dists: array2<int>, i: nat)
    requires forall k :: 0 <= k < |W| ==> |W[k]| == |W|
    requires dists.Length0 == dists.Length1 == |prev| == |W| && 0 < i < |W|
    requires forall k :: 0 <= k < |W| ==> dists[i - 1, k] == prev[k]
    modifies dists
    ensures forall r, k :: 0 <= r < |W| && r != i && 0 <= k < |W| ==> dists[r, k] == old(dists[r, k])
    ensures forall k :: 0 <= k < |W| ==> dists[i, k] == BestIn(W, prev, k, |W|)
  {
    var N := |W|;
    for v := 0 to N
      invariant forall r, k :: 0 <= r < N && r != i && 0 <= k < N ==> dists[r, k] == old(dists[r, k])
      invariant forall k :: 0 <= k < v ==> dists[i, k] == BestIn(W, prev, k, N)
    {
      dists[i, v] := dists[i - 1, v];
      for n := 0 to N
        invariant forall r, k :: 0 <= r < N && r != i && 0 <= k < N ==> dists[r, k] == old(dists[r, k])
        invariant forall k :: 0 <= k < v ==> dists[i, k] == BestIn(W, prev, k, N)
        invariant dists[i, v] == BestIn(W, prev, v, n)
      {
        if W[n][v] != 0 {
          var w := W[n][v];
          if dists[i - 1, n] + w < dists[i, v] {
            dists[i, v] := dists[i - 1, n] + w;
          }
        }
      }
    }
  }

  /** Bellman-Ford rows never increase. */
  lemma RowsNonIncreasing(W: seq<seq<Weight>>, s: nat, i: nat, v: nat)
    requires forall k :: 0 <= k < |W| ==> |W[k]| == |W|
    requires 0 < i && v < |W|
    ensures Row(W, s, i)[v] <= Row(W, s, i - 1)[v]
  {
  }

  /** A walk through the graph along non-zero weights. */
  predicate Walk(W: seq<seq<Weight>>, p: seq<nat>)
    requires forall k :: 0 <= k < |W| ==> |W[k]| == |W|
  {
    |p| >= 1 && (forall k :: 0 <= k < |p| ==> p[k] < |W|)
    && forall k :: 0 <= k < |p| - 1 ==> W[p[k]][p[k + 1]] != 0
  }

  function WalkWeight(W: seq<seq<Weight>>, p: seq<nat>): int
    requires forall k :: 0 <= k < |W| ==> |W[k]| == |W|
    requires Walk(W, p)
  {
    if |p| == 1 then 0 else WalkWeight(W, p[..|p| - 1]) + W[p[|p| - 2]][p[|p| - 1]]
  }

  /** Following dijk's predecessors from any vertex with a finite distance leads back to
    * the start along a walk no heavier than that distance. */
  lemma {:induction false} TreePath(W: seq<seq<Weight>>, s: nat, d: seq<int>, p: seq<Option<nat>>, v: nat)
    returns (path: seq<nat>)
    requires forall k :: 0 <= k < |W| ==> |W[k]| == |W|
    requires Tree(W, s, d, p) && v < |W| && d[v] < Infinity
    ensures Walk(W, path) && path[0] == s && path[|path| - 1] == v
    ensures WalkWeight(W, path) <= d[v]
    decreases d[v]
  {
    if p[v] == None {
      path := [s];
    } else {
      var u := p[v].value;
      var q := TreePath(W, s, d, p, u);
      path := q + [v];
      assert path[..|path| - 1] == q;
    }
  }

  lemma {:induction false} RowBounds(W: seq<seq<Weight>>, s: nat, i: nat, v: nat)
    requires forall k :: 0 <= k < |W| ==> |W[k]| == |W|
    requires v < |W|
    ensures 0 <= Row(W, s, i)[v] <= InitDist(s, v)
  {
    if i > 0 {
      RowBounds(W, s, i - 1, v);
      var prev := Row(W, s, i - 1);
      var k := BestInAttained(W, prev, v, |W|);
      if k >= 0 {
        RowBounds(W, s, i - 1, k);
      }
      forall k | 0 <= k < |W|
        ensures prev[k] >= 0
      {
        RowBounds(W, s, i - 1, k);
      }
    }
  }

  /** A walk without its last vertex is a walk from the same vertex, lighter by the last edge. */
  lemma WalkPrefix(W: seq<seq<Weight>>, p: seq<nat>)
    requires forall k :: 0 <= k < |W| ==> |W[k]| == |W|
    requires Walk(W, p) && |p| >= 2
    ensures Walk(W, p[..|p| - 1]) && p[..|p| - 1][0] == p[0]
    ensures WalkWeight(W, p) == WalkWeight(W, p[..|p| - 1]) + W[p[|p| - 2]][p[|p| - 1]]
  {
  }

  /** A walk extended by an edge out of its last vertex is a walk, heavier by that edge. */
  lemma WalkExtend(W: seq<seq<Weight>>, q: seq<nat>, v: nat)
    requires forall k :: 0 <= k < |W| ==> |W[k]| == |W|
    requires Walk(W, q) && v < |W| && W[q[|q| - 1]][v] != 0
    ensures Walk(W, q + [v]) && (q + [v])[0] == q[0]
    ensures WalkWeight(W, q + [v]) == WalkWeight(W, q) + W[q[|q| - 1]][v]
  {
    assert (q + [v])[..|q|] == q;
  }

  /** Row i is at most the weight of any walk from the start with at most i edges. */
  lemma {:induction false} RowBelowWalks(W: seq<seq<Weight>>, s: nat, i: nat, p: seq<nat>)
    requires forall k :: 0 <= k < |W| ==> |W[k]| == |W|
    requires Walk(W, p) && p[0] == s && |p| - 1 <= i
    ensures Row(W, s, i)[p[|p| - 1]] <= WalkWeight(W, p)
  {
    var v := p[|p| - 1];
    if i == 0 {
    } else if |p| == 1 {
      RowsNonIncreasing(W, s, i, v);
      RowBelowWalks(W, s, i - 1, p);
    } else {
      var q := p[..|p| - 1];
      var u := p[|p| - 2];
      WalkPrefix(W, p);
      RowBelowWalks(W, s, i - 1, q);
      var prev := Row(W, s, i - 1);
      assert q[|q| - 1] == u && prev[u] <= WalkWeight(W, q);
      assert Row(W, s, i)[v] == BestIn(W, prev, v, |W|) <= prev[u] + W[u][v];
    }
  }

  /** Every finite entry of row i is the weight of a walk from the start with at most i edges. */
  lemma {:induction false} RowIsWalk(W: seq<seq<Weight>>, s: nat, i: nat, v: nat) returns (p: seq<nat>)
    requires forall k :: 0 <= k < |W| ==> |W[k]| == |W|
    requires v < |W| && Row(W, s, i)[v] < Infinity
    ensures Walk(W, p) && p[0] == s && p[|p| - 1] == v && |p| - 1 <= i
    ensures WalkWeight(W, p) == Row(W, s, i)[v]
  {
    if i == 0 {
      p := [v];
    } else {
      var prev := Row(W, s, i - 1);
      var r := Row(W, s, i)[v];
      assert r == BestIn(W, prev, v, |W|);
      var k := BestInAttained(W, prev, v, |W|);
      if k == -1 {
        assert prev[v] == r;
        p := RowIsWalk(W, s, i - 1, v);
      } else {
        assert prev[k] + W[k][v] == r;
        var q := RowIsWalk(W, s, i - 1, k);
        p := q + [v];
        WalkExtend(W, q, v);
        assert WalkWeight(W, p) == prev[k] + W[k][v];
      }
    }
  }
}
