/**
 * The graph engine of graphs/Graph.java: vertex and edge lists, direction-aware
 * neighbour lookup, a priority-queue shortest-path tree, breadth-first and
 * depth-first traversal.  Vertices are objects compared by reference; edges are
 * immutable values.  The Java `Double` distances are modelled as `int`.
 */
module GraphEngine {
  import opened Wrappers

  class Vertex {
    const name: string

    constructor(name: string)
      ensures this.name == name
    {
      this.name := name;
    }
  }

  /** An edge; only the synthetic start edge of dijk_path has no source vertex. */
  datatype Edge = Edge(from: Option<Vertex>, to: Vertex, dist: int)

  /** A neighbour and the distance to it. */
  datatype Pair = Pair(vertex: Vertex, dist: int)

  /** What one edge contributes to the neighbour list of v: its target when it starts
    * at v, otherwise, in an undirected graph, its source when it ends at v. */
  function Yielded(e: Edge, directed: bool, v: Vertex): (r: seq<Pair>)
    ensures |r| <= 1
    ensures e.from == Some(v) ==> r == [Pair(e.to, e.dist)]
    ensures directed && e.from != Some(v) ==> r == []
  {
    if e.from == Some(v) then [Pair(e.to, e.dist)]
    else if !directed && e.to == v && e.from.Some? then [Pair(e.from.value, e.dist)]
    else []
  }

  /** getNeighbours on values: the contributions of the edges, in edge order. */
  function Neighbours(edges: seq<Edge>, directed: bool, v: Vertex): (r: seq<Pair>)
    ensures |r| <= |edges|
  {
    if edges == [] then [] else Yielded(edges[0], directed, v) + Neighbours(edges[1..], directed, v)
  }

  /** Every neighbour comes from one edge ... */
  lemma {:induction false} NeighbourSource(edges: seq<Edge>, directed: bool, v: Vertex, p: Pair) returns (k: nat)
    requires p in Neighbours(edges, directed, v)
    ensures k < |edges| && Yielded(edges[k], directed, v) == [p]
  {
    if p in Yielded(edges[0], directed, v) {
      k := 0;
    } else {
      k := NeighbourSource(edges[1..], directed, v, p);
      k := k + 1;
    }
  }

  /** ... and every edge's contribution is among the neighbours. */
  lemma {:induction false} NeighbourComplete(edges: seq<Edge>, directed: bool, v: Vertex, k: nat)
    requires k < |edges| && |Yielded(edges[k], directed, v)| == 1
    ensures Yielded(edges[k], directed, v)[0] in Neighbours(edges, directed, v)
  {
    if k > 0 {
      NeighbourComplete(edges[1..], directed, v, k - 1);
    }
  }

  /** Appending an edge (addEdge) appends exactly that edge's contribution to every
    * neighbour list, so neighbour lists follow edge insertion order; a self-loop in an
    * undirected graph contributes one pair, not two. */
  lemma {:induction false} NeighboursAppend(edges: seq<Edge>, e: Edge, directed: bool, v: Vertex)
    ensures Neighbours(edges + [e], directed, v) == Neighbours(edges, directed, v) + Yielded(e, directed, v)
  {
    if edges != [] {
      assert (edges + [e])[1..] == edges[1..] + [e];
      NeighboursAppend(edges[1..], e, directed, v);
    }
  }

  /** The vertices edges touch. */
  function EdgeVertices(edges: seq<Edge>): (r: set<Vertex>)
    ensures forall k :: 0 <= k < |edges| ==> edges[k].to in r
    ensures forall k :: 0 <= k < |edges| && edges[k].from.Some? ==> edges[k].from.value in r
  {
    if edges == [] then {}
    else
      {edges[0].to} + (if edges[0].from.Some? then {edges[0].from.value} else {}) + EdgeVertices(edges[1..])
  }

  lemma NeighboursInEdgeVertices(edges: seq<Edge>, directed: bool, v: Vertex, p: Pair)
    requires p in Neighbours(edges, directed, v)
    ensures p.vertex in EdgeVertices(edges)
  {
    var k := NeighbourSource(edges, directed, v, p);
  }

  /**
   * A walk is given by the indices of the edges it follows: from the current vertex,
   * edge k leads to the vertex it contributes to the current vertex's neighbour list.
   * Walk returns the end vertex and the total distance, or None when some edge does
   * not touch the current vertex.
   */
  function Walk(edges: seq<Edge>, directed: bool, a: Vertex, ks: seq<nat>): Option<(Vertex, int)>
    decreases |ks|
  {
    if ks == [] then Some((a, 0))
    else if ks[0] < |edges| && |Yielded(edges[ks[0]], directed, a)| == 1 then
      var p := Yielded(edges[ks[0]], directed, a)[0];
      match Walk(edges, directed, p.vertex, ks[1..])
        case None => None
        case Some((b, w)) => Some((b, p.dist + w))
    else None
  }

  /** Extending a walk by a neighbour of its end vertex. */
  lemma {:induction false} WalkAppend(edges: seq<Edge>, directed: bool, a: Vertex, ks: seq<nat>, k: nat)
    requires Walk(edges, directed, a, ks).Some?
    requires k < |edges| && |Yielded(edges[k], directed, Walk(edges, directed, a, ks).value.0)| == 1
    ensures var (b, w) := Walk(edges, directed, a, ks).value;
      var p := Yielded(edges[k], directed, b)[0];
      Walk(edges, directed, a, ks + [k]) == Some((p.vertex, w + p.dist))
    decreases |ks|
  {
    if ks != [] {
      var p := Yielded(edges[ks[0]], directed, a)[0];
      assert (ks + [k])[1..] == ks[1..] + [k];
      WalkAppend(edges, directed, p.vertex, ks[1..], k);
    }
  }

  ghost predicate Reachable(edges: seq<Edge>, directed: bool, a: Vertex, b: Vertex)
  {
    exists ks: seq<nat> :: Walk(edges, directed, a, ks).Some? && Walk(edges, directed, a, ks).value.0 == b
  }

  lemma ReachStep(edges: seq<Edge>, directed: bool, a: Vertex, b: Vertex, p: Pair)
    requires Reachable(edges, directed, a, b) && p in Neighbours(edges, directed, b)
    ensures Reachable(edges, directed, a, p.vertex)
  {
    var ks: seq<nat> :| Walk(edges, directed, a, ks).Some? && Walk(edges, directed, a, ks).value.0 == b;
    var k := NeighbourSource(edges, directed, b, p);
    WalkAppend(edges, directed, a, ks, k);
    assert Walk(edges, directed, a, ks + [k]).value.0 == p.vertex;
  }

  lemma ReachSelf(edges: seq<Edge>, directed: bool, a: Vertex)
    ensures Reachable(edges, directed, a, a)
  {
    assert Walk(edges, directed, a, []) == Some((a, 0));
  }

  /** A set closed under getNeighbours that holds a walk's first vertex holds its last. */
  lemma {:induction false} ClosedHoldsWalk(edges: seq<Edge>, directed: bool, S: set<Vertex>, a: Vertex, ks: seq<nat>)
    requires Walk(edges, directed, a, ks).Some? && a in S
    requires forall u, p :: u in S && p in Neighbours(edges, directed, u) ==> p.vertex in S
    ensures Walk(edges, directed, a, ks).value.0 in S
    decreases |ks|
  {
    if ks != [] {
      var p := Yielded(edges[ks[0]], directed, a)[0];
      NeighbourComplete(edges, directed, a, ks[0]);
      ClosedHoldsWalk(edges, directed, S, p.vertex, ks[1..]);
    }
  }

  /** The vertices of a neighbour list. */
  function Targets(ns: seq<Pair>): (r: seq<Vertex>)
    ensures |r| == |ns| && forall j :: 0 <= j < |ns| ==> r[j] == ns[j].vertex
  {
    if ns == [] then [] else Targets(ns[..|ns| - 1]) + [ns[|ns| - 1].vertex]
  }

  /** The elements of a list. */
  function Elems<T>(s: seq<T>): set<T>
  {
    set x | x in s
  }

  predicate NoDuplicates<T(==)>(s: seq<T>)
  {
    forall i, j :: 0 <= i < j < |s| ==> s[i] != s[j]
  }

  /** Every neighbour of a visited vertex is visited or still queued. */
  ghost predicate Closed(edges: seq<Edge>, directed: bool, visited: seq<Vertex>, queue: seq<Vertex>)
  {
    forall u, p :: u in visited && p in Neighbours(edges, directed, u) ==> p.vertex in visited || p.vertex in queue
  }

  lemma ClosedPop(edges: seq<Edge>, directed: bool, visited: seq<Vertex>, q: seq<Vertex>, q': seq<Vertex>)
    requires Closed(edges, directed, visited, q) && |q| > 0 && q[0] in visited && q' == q[1..]
    ensures Closed(edges, directed, visited, q')
  {
    forall u, p | u in visited && p in Neighbours(edges, directed, u)
      ensures p.vertex in visited || p.vertex in q'
    {
      if p.vertex in q && p.vertex != q[0] {
        var j :| 0 <= j < |q| && q[j] == p.vertex;
        assert q'[j - 1] == p.vertex;
      }
    }
  }

  lemma ClosedVisit(edges: seq<Edge>, directed: bool, visited: seq<Vertex>, q: seq<Vertex>, q': seq<Vertex>)
    requires Closed(edges, directed, visited, q) && |q| > 0
    requires q[1..] <= q'
    requires forall p :: p in Neighbours(edges, directed, q[0]) ==> p.vertex in q'
    ensures Closed(edges, directed, visited + [q[0]], q')
  {
    forall u, p | u in visited + [q[0]] && p in Neighbours(edges, directed, u)
      ensures p.vertex in visited + [q[0]] || p.vertex in q'
    {
      if u != q[0] && p.vertex in q && p.vertex != q[0] {
        var j :| 0 <= j < |q| && q[j] == p.vertex;
        assert q'[j - 1] == p.vertex;
      }
    }
  }

  /** ks is a walk from start to y. */
  predicate WalkTo(edges: seq<Edge>, directed: bool, start: Vertex, ks: seq<nat>, y: Vertex)
  {
    Walk(edges, directed, start, ks).Some? && Walk(edges, directed, start, ks).value.0 == y
  }

  /** Every entry of wit is a walk from start to its key. */
  ghost predicate WitnessMap(edges: seq<Edge>, directed: bool, start: Vertex, wit: map<Vertex, seq<nat>>)
  {
    forall y :: y in wit ==> WalkTo(edges, directed, start, wit[y], y)
  }

  /** A walk to v of length d extends, by one edge, to a walk to each neighbour of v. */
  lemma StepWalk(edges: seq<Edge>, directed: bool, start: Vertex, ks: seq<nat>, v: Vertex, d: int, p: Pair)
    returns (ks': seq<nat>)
    requires Walk(edges, directed, start, ks) == Some((v, d)) && p in Neighbours(edges, directed, v)
    ensures Walk(edges, directed, start, ks') == Some((p.vertex, p.dist + d))
  {
    var k := NeighbourSource(edges, directed, v, p);
    WalkAppend(edges, directed, start, ks, k);
    ks' := ks + [k];
  }

  /** The targets of v's neighbour list are edge vertices and are all of v's neighbours. */
  lemma TargetsOf(edges: seq<Edge>, directed: bool, v: Vertex, ns: seq<Pair>)
    requires ns == Neighbours(edges, directed, v)
    ensures forall y :: y in Targets(ns) ==> y in EdgeVertices(edges)
    ensures forall p :: p in ns ==> p.vertex in Targets(ns)
  {
    forall y | y in Targets(ns)
      ensures y in EdgeVertices(edges)
    {
      var j :| 0 <= j < |ns| && Targets(ns)[j] == y;
      NeighboursInEdgeVertices(edges, directed, v, ns[j]);
    }
    forall p | p in ns
      ensures p.vertex in Targets(ns)
    {
      var j :| 0 <= j < |ns| && ns[j] == p;
      assert Targets(ns)[j] == p.vertex;
    }
  }

  /** The targets of v's neighbour list get walks from start by extending the walk to v. */
  lemma TargetsWitnessed(edges: seq<Edge>, directed: bool, start: Vertex, v: Vertex, ns: seq<Pair>, wit: map<Vertex, seq<nat>>)
    returns (wit': map<Vertex, seq<nat>>)
    requires ns == Neighbours(edges, directed, v) && WitnessMap(edges, directed, start, wit) && v in wit
    ensures WitnessMap(edges, directed, start, wit') && wit.Keys <= wit'.Keys
    ensures forall y :: y in Targets(ns) ==> y in wit'
  {
    wit' := wit;
    var w := wit[v];
    assert WalkTo(edges, directed, start, w, v);
    var d := Walk(edges, directed, start, w).value.1;
    for j := 0 to |ns|
      invariant WitnessMap(edges, directed, start, wit') && wit.Keys <= wit'.Keys
      invariant forall l :: 0 <= l < j ==> ns[l].vertex in wit'
    {
      var ks := StepWalk(edges, directed, start, w, v, d, ns[j]);
      assert WalkTo(edges, directed, start, ks, ns[j].vertex);
      wit' := wit'[ns[j].vertex := ks];
    }
    forall y | y in Targets(ns)
      ensures y in wit'
    {
      var j :| 0 <= j < |ns| && Targets(ns)[j] == y;
    }
  }

  /** The loop invariant of breadth_first_order. */
  ghost predicate BfsInv(edges: seq<Edge>, directed: bool, start: Vertex, U: set<Vertex>,
                         visited: seq<Vertex>, queue: seq<Vertex>, wit: map<Vertex, seq<nat>>)
  {
    && U == EdgeVertices(edges) + {start}
    && Elems(visited) <= U && Elems(queue) <= U
    && NoDuplicates(visited)
    && (|visited| == 0 ==> queue == [start])
    && (|visited| >= 1 ==> visited[0] == start)
    && WitnessMap(edges, directed, start, wit)
    && Elems(visited) <= wit.Keys && Elems(queue) <= wit.Keys
    && Closed(edges, directed, visited, queue)
  }

  /** Visiting the head of the queue and enqueuing its neighbours keeps the invariant;
    * wit' extends the walks to the new targets. */
  lemma VisitKeeps(edges: seq<Edge>, directed: bool, start: Vertex, U: set<Vertex>,
                   visited: seq<Vertex>, queue: seq<Vertex>, wit: map<Vertex, seq<nat>>,
                   ns: seq<Pair>) returns (wit': map<Vertex, seq<nat>>)
    requires BfsInv(edges, directed, start, U, visited, queue, wit)
    requires |queue| > 0 && queue[0] !in visited
    requires ns == Neighbours(edges, directed, queue[0])
    ensures BfsInv(edges, directed, start, U, visited + [queue[0]], queue[1..] + Targets(ns), wit')
    ensures |U - Elems(visited + [queue[0]])| < |U - Elems(visited)|
  {
    assert queue[0] in Elems(queue);
    wit' := TargetsWitnessed(edges, directed, start, queue[0], ns, wit);
    VisitKeepsShape(edges, directed, U, start, visited, queue, ns);
    VisitKeepsKeys(visited, queue, Targets(ns), wit.Keys, wit'.Keys);
    VisitKeepsClosed(edges, directed, visited, queue, ns);
  }

  lemma VisitKeepsKeys<T>(visited: seq<T>, queue: seq<T>, ts: seq<T>, K: set<T>, K': set<T>)
    requires Elems(visited) <= K && Elems(queue) <= K && K <= K' && |queue| > 0
    requires forall y :: y in ts ==> y in K'
    ensures Elems(visited + [queue[0]]) <= K' && Elems(queue[1..] + ts) <= K'
  {
    assert queue[0] in Elems(queue);
    assert Elems(visited + [queue[0]]) == Elems(visited) + {queue[0]};
    ElemsAfterPop(queue, ts, K');
  }

  lemma VisitKeepsClosed(edges: seq<Edge>, directed: bool, visited: seq<Vertex>, queue: seq<Vertex>, ns: seq<Pair>)
    requires Closed(edges, directed, visited, queue) && |queue| > 0
    requires ns == Neighbours(edges, directed, queue[0])
    ensures Closed(edges, directed, visited + [queue[0]], queue[1..] + Targets(ns))
  {
    TargetsOf(edges, directed, queue[0], ns);
    ClosedVisit(edges, directed, visited, queue, queue[1..] + Targets(ns));
  }

  lemma ElemsAfterPop<T>(queue: seq<T>, ts: seq<T>, X: set<T>)
    requires |queue| > 0 && Elems(queue) <= X && forall y :: y in ts ==> y in X
    ensures Elems(queue[1..] + ts) <= X
  {
    forall y | y in queue[1..] + ts
      ensures y in X
    {
      if y !in ts {
        assert y in queue;
      }
    }
  }

  /** The parts of the invariant that speak only of list shape and membership. */
  lemma VisitKeepsShape(edges: seq<Edge>, directed: bool, U: set<Vertex>, start: Vertex,
                        visited: seq<Vertex>, queue: seq<Vertex>, ns: seq<Pair>)
    requires U == EdgeVertices(edges) + {start} && Elems(visited) <= U && Elems(queue) <= U
    requires |queue| > 0 && ns == Neighbours(edges, directed, queue[0])
    requires NoDuplicates(visited) && (|visited| >= 1 ==> visited[0] == start)
    requires |visited| == 0 ==> queue == [start]
    requires |queue| > 0 && queue[0] !in visited
    ensures Elems(visited + [queue[0]]) <= U && Elems(queue[1..] + Targets(ns)) <= U
    ensures NoDuplicates(visited + [queue[0]]) && (visited + [queue[0]])[0] == start
    ensures |U - Elems(visited + [queue[0]])| < |U - Elems(visited)|
  {
    var next := queue[0];
    assert next in Elems(queue);
    TargetsOf(edges, directed, next, ns);
    FewerLeft(U, visited, next);
    ElemsAfterPop(queue, Targets(ns), U);
  }

  lemma NoDupAppend<T>(s: seq<T>, x: T)
    requires NoDuplicates(s) && x !in s
    ensures NoDuplicates(s + [x])
  {
  }

  lemma FewerLeft<T>(U: set<T>, visited: seq<T>, next: T)
    requires next in U && next !in visited
    ensures Elems(visited + [next]) == Elems(visited) + {next}
    ensures |U - Elems(visited + [next])| < |U - Elems(visited)|
  {
    assert Elems(visited + [next]) == Elems(visited) + {next};
    assert next !in Elems(visited);
    assert U - Elems(visited) == (U - Elems(visited + [next])) + {next};
  }

  lemma BfsStart(edges: seq<Edge>, directed: bool, start: Vertex)
    ensures BfsInv(edges, directed, start, EdgeVertices(edges) + {start}, [], [start], map[start := []])
  {
    assert WalkTo(edges, directed, start, [], start);
  }

  lemma PopKeeps(edges: seq<Edge>, directed: bool, start: Vertex, U: set<Vertex>,
                 visited: seq<Vertex>, queue: seq<Vertex>, wit: map<Vertex, seq<nat>>)
    requires BfsInv(edges, directed, start, U, visited, queue, wit)
    requires |queue| > 0 && queue[0] in visited
    ensures BfsInv(edges, directed, start, U, visited, queue[1..], wit)
  {
    ClosedPop(edges, directed, visited, queue, queue[1..]);
    assert Elems(queue[1..]) <= Elems(queue);
  }

  /** When the queue runs dry, the visited list is exactly what start reaches. */
  lemma BfsFinish(edges: seq<Edge>, directed: bool, start: Vertex, U: set<Vertex>,
                  visited: seq<Vertex>, wit: map<Vertex, seq<nat>>)
    requires BfsInv(edges, directed, start, U, visited, [], wit)
    ensures |visited| >= 1 && visited[0] == start && NoDuplicates(visited)
    ensures forall y :: y in visited ==> Reachable(edges, directed, start, y)
    ensures forall ks: seq<nat> :: Walk(edges, directed, start, ks).Some? ==> Walk(edges, directed, start, ks).value.0 in visited
  {
    assert Closed(edges, directed, visited, []);
    forall y | y in visited
      ensures Reachable(edges, directed, start, y)
    {
      assert y in Elems(visited);
      assert Walk(edges, directed, start, wit[y]).value.0 == y;
    }
    forall ks: seq<nat> | Walk(edges, directed, start, ks).Some?
      ensures Walk(edges, directed, start, ks).value.0 in visited
    {
      ClosedHoldsWalk(edges, directed, Elems(visited), start, ks);
    }
  }

  // ---------------------------------------------------------------------------
  // dijk_path: a priority queue of edges whose dist is the length of a walk from
  // start; the first edge polled for a vertex becomes its predecessor edge.
  // ---------------------------------------------------------------------------

  /** The target vertices of a list of edges. */
  function Tos(es: seq<Edge>): (r: seq<Vertex>)
    ensures |r| == |es| && forall j :: 0 <= j < |es| ==> r[j] == es[j].to
  {
    if es == [] then [] else Tos(es[..|es| - 1]) + [es[|es| - 1].to]
  }

  /** The distance recorded for y: that of the first edge leading to y. */
  function DistOf(preds: seq<Edge>, y: Vertex): int
  {
    if preds == [] then 0
    else if preds[0].to == y then preds[0].dist
    else DistOf(preds[1..], y)
  }

  lemma {:induction false} DistOfAt(preds: seq<Edge>, i: nat)
    requires NoDuplicates(Tos(preds)) && i < |preds|
    ensures DistOf(preds, preds[i].to) == preds[i].dist
  {
    if i > 0 {
      assert Tos(preds)[0] != Tos(preds)[i];
      assert forall j :: 0 <= j < |preds| - 1 ==> Tos(preds[1..])[j] == Tos(preds)[j + 1];
      DistOfAt(preds[1..], i - 1);
    }
  }

  predicate NonNegative(edges: seq<Edge>)
  {
    forall k :: 0 <= k < |edges| ==> edges[k].dist >= 0
  }

  lemma NeighbourNonNegative(edges: seq<Edge>, directed: bool, v: Vertex, p: Pair)
    requires NonNegative(edges) && p in Neighbours(edges, directed, v)
    ensures p.dist >= 0
  {
    var k := NeighbourSource(edges, directed, v, p);
  }

  /** The queue without its i-th entry: what poll leaves behind. */
  function Removed<T>(s: seq<T>, i: nat): (r: seq<T>)
    requires i < |s|
    ensures |r| == |s| - 1
    ensures forall j :: 0 <= j < i ==> r[j] == s[j]
    ensures forall j :: i <= j < |r| ==> r[j] == s[j + 1]
  {
    s[..i] + s[i + 1..]
  }

  lemma RemovedKeeps<T>(s: seq<T>, i: nat, x: T)
    requires i < |s| && x in s && x != s[i]
    ensures x in Removed(s, i)
  {
    var j :| 0 <= j < |s| && s[j] == x;
    if j < i {
      assert Removed(s, i)[j] == x;
    } else {
      assert Removed(s, i)[j - 1] == x;
    }
  }

  /** The queue entries dijk_path adds after settling v at distance d. */
  function Entries(v: Vertex, d: int, ns: seq<Pair>): (r: seq<Edge>)
    ensures |r| == |ns|
    ensures forall j :: 0 <= j < |ns| ==> r[j] == Edge(Some(v), ns[j].vertex, ns[j].dist + d)
  {
    if ns == [] then []
    else Entries(v, d, ns[..|ns| - 1]) + [Edge(Some(v), ns[|ns| - 1].vertex, ns[|ns| - 1].dist + d)]
  }

  /** There is a walk from start to y of total distance d. */
  ghost predicate WalkOfLength(edges: seq<Edge>, directed: bool, start: Vertex, y: Vertex, d: int)
  {
    exists ks: seq<nat> :: Walk(edges, directed, start, ks) == Some((y, d))
  }

  /** ws[i] is a walk from start to es[i].to of length es[i].dist. */
  ghost predicate Walked(edges: seq<Edge>, directed: bool, start: Vertex, es: seq<Edge>, ws: seq<seq<nat>>)
  {
    |ws| == |es| && forall i :: 0 <= i < |es| ==> Walk(edges, directed, start, ws[i]) == Some((es[i].to, es[i].dist))
  }

  /** The shape of the predecessor list: the start edge first, one edge per vertex,
    * each edge's source settled before it. */
  ghost predicate PredShape(start: Vertex, U: set<Vertex>, preds: seq<Edge>)
  {
    && (|preds| >= 1 ==> preds[0] == Edge(None, start, 0))
    && NoDuplicates(Tos(preds))
    && SourcesEarlier(preds)
    && (forall i :: 0 <= i < |preds| ==> preds[i].to in U)
  }

  /** Every edge after the first starts at the target of an earlier edge. */
  predicate SourcesEarlier(preds: seq<Edge>)
  {
    forall i :: 0 < i < |preds| ==>
      preds[i].from.Some? && exists j :: 0 <= j < i && preds[j].to == preds[i].from.value
  }

  /** The shape of the queue: the start edge alone, or entries from settled vertices. */
  ghost predicate QueueShape(start: Vertex, U: set<Vertex>, preds: seq<Edge>, prio: seq<Edge>)
  {
    && (|preds| == 0 ==> prio == [Edge(None, start, 0)])
    && (|preds| >= 1 ==> forall j :: 0 <= j < |prio| ==> prio[j].from.Some? && prio[j].from.value in Tos(preds))
    && (forall j :: 0 <= j < |prio| ==> prio[j].to in U)
  }

  /** Every neighbour of a settled vertex is settled or has an entry through it in the
    * queue; with non-negative weights a settled neighbour is no farther than the way
    * through it. */
  ghost predicate DistClosed(edges: seq<Edge>, directed: bool, preds: seq<Edge>, prio: seq<Edge>)
  {
    forall a, p :: 0 <= a < |preds| && p in Neighbours(edges, directed, preds[a].to) ==>
      Covered(edges, preds, prio, preds[a].to, preds[a].dist, p)
  }

  /** Neighbour p of u, settled at distance du, is queued through u or already settled. */
  ghost predicate Covered(edges: seq<Edge>, preds: seq<Edge>, prio: seq<Edge>, u: Vertex, du: int, p: Pair)
  {
    || Edge(Some(u), p.vertex, p.dist + du) in prio
    || (p.vertex in Tos(preds) && (NonNegative(edges) ==> DistOf(preds, p.vertex) <= du + p.dist))
  }

  lemma CoveredDrop(edges: seq<Edge>, preds: seq<Edge>, prio: seq<Edge>, i: nat, u: Vertex, du: int, p: Pair)
    requires Covered(edges, preds, prio, u, du, p) && NoDuplicates(Tos(preds))
    requires i < |prio| && prio[i].to in Tos(preds)
    requires NonNegative(edges) ==> forall k :: 0 <= k < |preds| ==> preds[k].dist <= prio[i].dist
    ensures Covered(edges, preds, Removed(prio, i), u, du, p)
  {
    var x := Edge(Some(u), p.vertex, p.dist + du);
    if x in prio && x != prio[i] {
      RemovedKeeps(prio, i, x);
    } else if x == prio[i] {
      var b :| 0 <= b < |preds| && Tos(preds)[b] == prio[i].to;
      DistOfAt(preds, b);
    }
  }

  lemma CoveredSettle(edges: seq<Edge>, preds: seq<Edge>, prio: seq<Edge>, i: nat, added: seq<Edge>,
                      u: Vertex, du: int, p: Pair)
    requires Covered(edges, preds, prio, u, du, p)
    requires i < |prio| && NoDuplicates(Tos(preds + [prio[i]]))
    ensures Covered(edges, preds + [prio[i]], Removed(prio, i) + added, u, du, p)
  {
    var e := prio[i];
    var preds' := preds + [e];
    var x := Edge(Some(u), p.vertex, p.dist + du);
    TosAppend(preds, e);
    if x in prio && x != e {
      RemovedKeeps(prio, i, x);
    } else if x == e {
      DistOfAt(preds', |preds|);
    } else {
      var b :| 0 <= b < |preds| && Tos(preds)[b] == p.vertex;
      DistOfAt(preds', b);
      DistOfAt(preds, b);
    }
  }

  /** Settled distances never decrease and no queued entry is nearer than a settled one. */
  predicate Ordered(preds: seq<Edge>, prio: seq<Edge>)
  {
    && (forall i, j :: 0 <= i < j < |preds| ==> preds[i].dist <= preds[j].dist)
    && (forall i, j :: 0 <= i < |preds| && 0 <= j < |prio| ==> preds[i].dist <= prio[j].dist)
  }

  /** The loop invariant of dijk_path. */
  ghost predicate DijkInv(edges: seq<Edge>, directed: bool, start: Vertex, U: set<Vertex>,
                          preds: seq<Edge>, pw: seq<seq<nat>>, prio: seq<Edge>, qw: seq<seq<nat>>)
  {
    && U == EdgeVertices(edges) + {start}
    && PredShape(start, U, preds)
    && QueueShape(start, U, preds, prio)
    && Walked(edges, directed, start, preds, pw)
    && Walked(edges, directed, start, prio, qw)
    && DistClosed(edges, directed, preds, prio)
    && (NonNegative(edges) ==> Ordered(preds, prio))
  }

  /** Every entry with a source extends the distance recorded for that source by the weight of one
    * neighbour pair of it. */
  ghost predicate Linked(edges: seq<Edge>, directed: bool, preds: seq<Edge>, es: seq<Edge>)
  {
    forall j :: 0 <= j < |es| ==> LinkedEdge(edges, directed, preds, es[j])
  }

  /** An edge with a source extends the distance recorded for it by a neighbour pair's weight. */
  ghost predicate LinkedEdge(edges: seq<Edge>, directed: bool, preds: seq<Edge>, e: Edge)
  {
    e.from.Some? ==> Pair(e.to, e.dist - DistOf(preds, e.from.value)) in Neighbours(edges, directed, e.from.value)
  }

  /** Appending a settled edge leaves the distance of every vertex settled before alone. */
  lemma {:induction false} DistOfAppend(preds: seq<Edge>, e: Edge, y: Vertex)
    requires y in Tos(preds)
    ensures DistOf(preds + [e], y) == DistOf(preds, y)
  {
    if preds[0].to != y {
      assert (preds + [e])[1..] == preds[1..] + [e];
      assert forall j :: 0 <= j < |preds| - 1 ==> Tos(preds[1..])[j] == Tos(preds)[j + 1];
      DistOfAppend(preds[1..], e, y);
    }
  }

  /** A linked edge whose source was settled stays linked when another edge is settled. */
  lemma LinkedEdgeAppend(edges: seq<Edge>, directed: bool, preds: seq<Edge>, e: Edge, x: Edge)
    requires LinkedEdge(edges, directed, preds, x)
    requires x.from.Some? ==> x.from.value in Tos(preds)
    ensures LinkedEdge(edges, directed, preds + [e], x)
  {
    if x.from.Some? {
      DistOfAppend(preds, e, x.from.value);
    }
  }

  /** Settling a linked entry whose source is settled keeps every settled entry linked. */
  lemma SettleLinkedPreds(edges: seq<Edge>, directed: bool, preds: seq<Edge>, e: Edge)
    requires SourcesEarlier(preds) && (|preds| >= 1 ==> preds[0].from.None?)
    requires Linked(edges, directed, preds, preds) && LinkedEdge(edges, directed, preds, e)
    requires e.from.Some? ==> e.from.value in Tos(preds)
    ensures Linked(edges, directed, preds + [e], preds + [e])
  {
    var preds' := preds + [e];
    forall j | 0 <= j < |preds'|
      ensures LinkedEdge(edges, directed, preds', preds'[j])
    {
      if j < |preds| {
        var x := preds[j];
        assert LinkedEdge(edges, directed, preds, x);
        if x.from.Some? {
          var k :| 0 <= k < j && preds[k].to == x.from.value;
          assert Tos(preds)[k] == x.from.value;
        }
        LinkedEdgeAppend(edges, directed, preds, e, x);
      } else {
        LinkedEdgeAppend(edges, directed, preds, e, e);
      }
    }
  }

  /** The entries queued for a settled vertex are linked to it. */
  lemma EntriesLinked(edges: seq<Edge>, directed: bool, preds: seq<Edge>, e: Edge, ns: seq<Pair>)
    requires NoDuplicates(Tos(preds + [e])) && ns == Neighbours(edges, directed, e.to)
    ensures Linked(edges, directed, preds + [e], Entries(e.to, e.dist, ns))
  {
    var preds' := preds + [e];
    TosAppend(preds, e);
    DistOfAt(preds', |preds|);
    forall k | 0 <= k < |ns|
      ensures LinkedEdge(edges, directed, preds', Entries(e.to, e.dist, ns)[k])
    {
      assert ns[k] in ns;
    }
  }

  /** Settling keeps the queued entries linked, the new ones to the settled vertex. */
  lemma SettleLinkedQueue(edges: seq<Edge>, directed: bool, preds: seq<Edge>, rest: seq<Edge>, e: Edge, ns: seq<Pair>)
    requires forall j :: 0 <= j < |rest| && rest[j].from.Some? ==> rest[j].from.value in Tos(preds)
    requires Linked(edges, directed, preds, rest)
    requires NoDuplicates(Tos(preds + [e])) && ns == Neighbours(edges, directed, e.to)
    ensures Linked(edges, directed, preds + [e], rest + Entries(e.to, e.dist, ns))
  {
    var added := Entries(e.to, e.dist, ns);
    EntriesLinked(edges, directed, preds, e, ns);
    forall j | 0 <= j < |rest + added|
      ensures LinkedEdge(edges, directed, preds + [e], (rest + added)[j])
    {
      if j < |rest| {
        LinkedEdgeAppend(edges, directed, preds, e, rest[j]);
      } else {
        assert (rest + added)[j] == added[j - |rest|];
      }
    }
  }

  /** Settling the polled entry keeps every entry linked. */
  lemma SettleLinks(edges: seq<Edge>, directed: bool, start: Vertex, U: set<Vertex>,
                    preds: seq<Edge>, prio: seq<Edge>, i: nat, ns: seq<Pair>)
    requires PredShape(start, U, preds) && QueueShape(start, U, preds, prio)
    requires Linked(edges, directed, preds, preds) && Linked(edges, directed, preds, prio)
    requires i < |prio| && prio[i].to !in Tos(preds) && ns == Neighbours(edges, directed, prio[i].to)
    ensures Linked(edges, directed, preds + [prio[i]], preds + [prio[i]])
    ensures Linked(edges, directed, preds + [prio[i]], Removed(prio, i) + Entries(prio[i].to, prio[i].dist, ns))
  {
    var e := prio[i];
    var rest := Removed(prio, i);
    assert LinkedEdge(edges, directed, preds, e);
    assert e.from.Some? ==> e.from.value in Tos(preds);
    SettleLinkedPreds(edges, directed, preds, e);
    DropLinked(edges, directed, preds, prio, i);
    assert forall j :: 0 <= j < |rest| ==> rest[j] in prio;
    TosAppend(preds, e);
    NoDupAppend(Tos(preds), e.to);
    SettleLinkedQueue(edges, directed, preds, rest, e, ns);
  }

  /** Dropping a queued entry keeps the rest linked. */
  lemma DropLinked(edges: seq<Edge>, directed: bool, preds: seq<Edge>, prio: seq<Edge>, i: nat)
    requires Linked(edges, directed, preds, prio) && i < |prio|
    ensures Linked(edges, directed, preds, Removed(prio, i))
  {
    assert forall j :: 0 <= j < |prio| - 1 ==> Removed(prio, i)[j] in prio;
  }

  /** The settled entries after the first name their source and extend its distance by one
    * neighbour pair. */
  lemma LinkedFinish(edges: seq<Edge>, directed: bool, preds: seq<Edge>)
    requires SourcesEarlier(preds) && Linked(edges, directed, preds, preds)
    ensures forall i :: 0 < i < |preds| ==> preds[i].from.Some? && LinkedEdge(edges, directed, preds, preds[i])
  {
  }

  lemma DijkStart(edges: seq<Edge>, directed: bool, start: Vertex)
    ensures DijkInv(edges, directed, start, EdgeVertices(edges) + {start}, [], [], [Edge(None, start, 0)], [[]])
  {
  }

  /** Polling an entry whose vertex is already settled keeps the invariant. */
  lemma DropKeeps(edges: seq<Edge>, directed: bool, start: Vertex, U: set<Vertex>,
                  preds: seq<Edge>, pw: seq<seq<nat>>, prio: seq<Edge>, qw: seq<seq<nat>>, i: nat)
    requires DijkInv(edges, directed, start, U, preds, pw, prio, qw)
    requires i < |prio| && prio[i].to in Tos(preds)
    ensures DijkInv(edges, directed, start, U, preds, pw, Removed(prio, i), Removed(qw, i))
  {
    forall a, p | 0 <= a < |preds| && p in Neighbours(edges, directed, preds[a].to)
      ensures Covered(edges, preds, Removed(prio, i), preds[a].to, preds[a].dist, p)
    {
      CoveredDrop(edges, preds, prio, i, preds[a].to, preds[a].dist, p);
    }
    assert forall j :: 0 <= j < |prio| - 1 ==> Removed(prio, i)[j] in prio;
  }

  lemma TosAppend(es: seq<Edge>, e: Edge)
    ensures Tos(es + [e]) == Tos(es) + [e.to]
  {
    assert (es + [e])[..|es|] == es;
  }

  /** The new entries start at v and lead to vertices edges touch. */
  lemma EntriesShape(edges: seq<Edge>, directed: bool, v: Vertex, d: int, ns: seq<Pair>)
    requires ns == Neighbours(edges, directed, v)
    ensures forall j :: 0 <= j < |ns| ==> Entries(v, d, ns)[j].from == Some(v) && Entries(v, d, ns)[j].to in EdgeVertices(edges)
  {
    forall j | 0 <= j < |ns|
      ensures Entries(v, d, ns)[j].to in EdgeVertices(edges)
    {
      NeighboursInEdgeVertices(edges, directed, v, ns[j]);
    }
  }

  /** Appending an edge whose source is already settled keeps sources before their edges. */
  lemma SourcesEarlierAppend(preds: seq<Edge>, e: Edge)
    requires SourcesEarlier(preds)
    requires |preds| >= 1 ==> e.from.Some? && e.from.value in Tos(preds)
    ensures SourcesEarlier(preds + [e])
  {
    var preds' := preds + [e];
    forall i | 0 < i < |preds'|
      ensures preds'[i].from.Some? && exists j :: 0 <= j < i && preds'[j].to == preds'[i].from.value
    {
      if i < |preds| {
        var j :| 0 <= j < i && preds[j].to == preds[i].from.value;
        assert preds'[j] == preds[j];
      } else {
        var j :| 0 <= j < |preds| && Tos(preds)[j] == e.from.value;
        assert preds'[j].to == preds'[i].from.value;
      }
    }
  }

  /** Settling the polled vertex keeps the shape of the predecessor list. */
  lemma SettlePreds(start: Vertex, U: set<Vertex>, preds: seq<Edge>, e: Edge)
    requires PredShape(start, U, preds)
    requires e.to in U && e.to !in Tos(preds)
    requires |preds| == 0 ==> e == Edge(None, start, 0)
    requires |preds| >= 1 ==> e.from.Some? && e.from.value in Tos(preds)
    ensures PredShape(start, U, preds + [e])
  {
    TosAppend(preds, e);
    NoDupAppend(Tos(preds), e.to);
    SourcesEarlierAppend(preds, e);
  }

  /** Settling the polled vertex keeps the shape of the queue. */
  lemma SettleQueue(edges: seq<Edge>, directed: bool, start: Vertex, U: set<Vertex>,
                    preds: seq<Edge>, prio: seq<Edge>, i: nat, ns: seq<Pair>)
    requires U == EdgeVertices(edges) + {start} && QueueShape(start, U, preds, prio)
    requires i < |prio| && ns == Neighbours(edges, directed, prio[i].to)
    ensures QueueShape(start, U, preds + [prio[i]], Removed(prio, i) + Entries(prio[i].to, prio[i].dist, ns))
  {
    var e := prio[i];
    var rest := Removed(prio, i);
    TosAppend(preds, e);
    EntriesShape(edges, directed, e.to, e.dist, ns);
    assert forall j :: 0 <= j < |rest| ==> rest[j] in prio;
  }

  /** The queue entries of a settled vertex extend its walk by one edge. */
  lemma {:induction false} EntryWalks(edges: seq<Edge>, directed: bool, start: Vertex, e: Edge, w: seq<nat>, ns: seq<Pair>)
    returns (ws: seq<seq<nat>>)
    requires Walk(edges, directed, start, w) == Some((e.to, e.dist))
    requires forall p :: p in ns ==> p in Neighbours(edges, directed, e.to)
    ensures Walked(edges, directed, start, Entries(e.to, e.dist, ns), ws)
    decreases |ns|
  {
    if ns == [] {
      ws := [];
    } else {
      var last := ns[|ns| - 1];
      var init := EntryWalks(edges, directed, start, e, w, ns[..|ns| - 1]);
      var ks := StepWalk(edges, directed, start, w, e.to, e.dist, last);
      WalkedConcat(edges, directed, start, Entries(e.to, e.dist, ns[..|ns| - 1]), init,
                   [Edge(Some(e.to), last.vertex, last.dist + e.dist)], [ks]);
      ws := init + [ks];
    }
  }

  lemma WalkedConcat(edges: seq<Edge>, directed: bool, start: Vertex,
                     es: seq<Edge>, ws: seq<seq<nat>>, fs: seq<Edge>, vs: seq<seq<nat>>)
    requires Walked(edges, directed, start, es, ws) && Walked(edges, directed, start, fs, vs)
    ensures Walked(edges, directed, start, es + fs, ws + vs)
  {
    forall i | 0 <= i < |es + fs|
      ensures Walk(edges, directed, start, (ws + vs)[i]) == Some(((es + fs)[i].to, (es + fs)[i].dist))
    {
      if i >= |es| {
        assert (ws + vs)[i] == vs[i - |es|] && (es + fs)[i] == fs[i - |es|];
      }
    }
  }

  lemma SettleWalks(edges: seq<Edge>, directed: bool, start: Vertex,
                    preds: seq<Edge>, pw: seq<seq<nat>>, prio: seq<Edge>, qw: seq<seq<nat>>, i: nat, ns: seq<Pair>)
    returns (qw': seq<seq<nat>>)
    requires Walked(edges, directed, start, preds, pw) && Walked(edges, directed, start, prio, qw)
    requires i < |prio| && ns == Neighbours(edges, directed, prio[i].to)
    ensures Walked(edges, directed, start, preds + [prio[i]], pw + [qw[i]])
    ensures Walked(edges, directed, start, Removed(prio, i) + Entries(prio[i].to, prio[i].dist, ns), qw')
  {
    var ws := EntryWalks(edges, directed, start, prio[i], qw[i], ns);
    assert Walked(edges, directed, start, Removed(prio, i), Removed(qw, i));
    WalkedConcat(edges, directed, start, Removed(prio, i), Removed(qw, i), Entries(prio[i].to, prio[i].dist, ns), ws);
    qw' := Removed(qw, i) + ws;
    WalkedConcat(edges, directed, start, preds, pw, [prio[i]], [qw[i]]);
  }

  /** Settling the polled vertex keeps every neighbour of a settled vertex covered. */
  lemma SettleClosed(edges: seq<Edge>, directed: bool, preds: seq<Edge>, prio: seq<Edge>, i: nat, ns: seq<Pair>)
    requires i < |prio| && ns == Neighbours(edges, directed, prio[i].to)
    requires DistClosed(edges, directed, preds, prio) && NoDuplicates(Tos(preds + [prio[i]]))
    ensures DistClosed(edges, directed, preds + [prio[i]], Removed(prio, i) + Entries(prio[i].to, prio[i].dist, ns))
  {
    var e := prio[i];
    var preds' := preds + [e];
    var added := Entries(e.to, e.dist, ns);
    forall a, p | 0 <= a < |preds'| && p in Neighbours(edges, directed, preds'[a].to)
      ensures Covered(edges, preds', Removed(prio, i) + added, preds'[a].to, preds'[a].dist, p)
    {
      if a == |preds| {
        CoveredByEntry(edges, preds', Removed(prio, i), e, ns, p);
      } else {
        assert preds'[a] == preds[a];
        assert Covered(edges, preds, prio, preds[a].to, preds[a].dist, p);
        CoveredSettle(edges, preds, prio, i, added, preds[a].to, preds[a].dist, p);
      }
    }
  }

  /** A neighbour of the settled vertex is covered by the entry queued for it. */
  lemma CoveredByEntry(edges: seq<Edge>, preds: seq<Edge>, rest: seq<Edge>, e: Edge, ns: seq<Pair>, p: Pair)
    requires p in ns
    ensures Covered(edges, preds, rest + Entries(e.to, e.dist, ns), e.to, e.dist, p)
  {
    var added := Entries(e.to, e.dist, ns);
    var j :| 0 <= j < |ns| && ns[j] == p;
    assert added[j] == Edge(Some(e.to), p.vertex, p.dist + e.dist);
    assert (rest + added)[|rest| + j] == added[j];
  }

  /** With non-negative weights, settling the nearest queued entry keeps the order. */
  lemma SettleOrdered(edges: seq<Edge>, directed: bool, preds: seq<Edge>, prio: seq<Edge>, i: nat, ns: seq<Pair>)
    requires NonNegative(edges) && Ordered(preds, prio)
    requires i < |prio| && forall j :: 0 <= j < |prio| ==> prio[i].dist <= prio[j].dist
    requires ns == Neighbours(edges, directed, prio[i].to)
    ensures Ordered(preds + [prio[i]], Removed(prio, i) + Entries(prio[i].to, prio[i].dist, ns))
  {
    var e := prio[i];
    var prio' := Removed(prio, i) + Entries(e.to, e.dist, ns);
    forall j | |prio| - 1 <= j < |prio'|
      ensures prio'[j].dist >= e.dist
    {
      NeighbourNonNegative(edges, directed, e.to, ns[j - (|prio| - 1)]);
    }
  }

  lemma SettleKeeps(edges: seq<Edge>, directed: bool, start: Vertex, U: set<Vertex>,
                    preds: seq<Edge>, pw: seq<seq<nat>>, prio: seq<Edge>, qw: seq<seq<nat>>, i: nat, ns: seq<Pair>)
    returns (qw': seq<seq<nat>>)
    requires DijkInv(edges, directed, start, U, preds, pw, prio, qw)
    requires i < |prio| && forall j :: 0 <= j < |prio| ==> prio[i].dist <= prio[j].dist
    requires prio[i].to !in Tos(preds) && ns == Neighbours(edges, directed, prio[i].to)
    ensures DijkInv(edges, directed, start, U, preds + [prio[i]], pw + [qw[i]],
                    Removed(prio, i) + Entries(prio[i].to, prio[i].dist, ns), qw')
    ensures |U - Elems(Tos(preds + [prio[i]]))| < |U - Elems(Tos(preds))|
    ensures Elems(Tos(preds + [prio[i]])) == Elems(Tos(preds)) + {prio[i].to}
  {
    assert prio[i] in prio;
    SettlePreds(start, U, preds, prio[i]);
    TosAppend(preds, prio[i]);
    FewerLeft(U, Tos(preds), prio[i].to);
    SettleQueue(edges, directed, start, U, preds, prio, i, ns);
    qw' := SettleWalks(edges, directed, start, preds, pw, prio, qw, i, ns);
    SettleClosed(edges, directed, preds, prio, i, ns);
    if NonNegative(edges) {
      SettleOrdered(edges, directed, preds, prio, i, ns);
    }
  }

  /** A walk from a settled vertex ends at a settled vertex, and, with non-negative
    * weights, no farther away than the settled distance plus the walk's length. */
  lemma {:induction false} SettledWalk(edges: seq<Edge>, directed: bool, preds: seq<Edge>, a: nat, ks: seq<nat>)
    requires DistClosed(edges, directed, preds, []) && NoDuplicates(Tos(preds))
    requires a < |preds| && Walk(edges, directed, preds[a].to, ks).Some?
    ensures Walk(edges, directed, preds[a].to, ks).value.0 in Tos(preds)
    ensures NonNegative(edges) ==>
      DistOf(preds, Walk(edges, directed, preds[a].to, ks).value.0) <= preds[a].dist + Walk(edges, directed, preds[a].to, ks).value.1
    decreases |ks|
  {
    if ks == [] {
      assert Tos(preds)[a] == preds[a].to;
      DistOfAt(preds, a);
    } else {
      var p := Yielded(edges[ks[0]], directed, preds[a].to)[0];
      NeighbourComplete(edges, directed, preds[a].to, ks[0]);
      var b :| 0 <= b < |preds| && Tos(preds)[b] == p.vertex;
      DistOfAt(preds, b);
      SettledWalk(edges, directed, preds, b, ks[1..]);
    }
  }

  /** When the queue runs dry the predecessor list is a shortest-path tree. */
  lemma DijkFinish(edges: seq<Edge>, directed: bool, start: Vertex, U: set<Vertex>, preds: seq<Edge>, pw: seq<seq<nat>>)
    requires DijkInv(edges, directed, start, U, preds, pw, [], [])
    ensures |preds| >= 1 && preds[0] == Edge(None, start, 0)
    ensures forall i :: 0 <= i < |preds| ==> WalkOfLength(edges, directed, start, preds[i].to, preds[i].dist)
    ensures forall ks: seq<nat> :: Walk(edges, directed, start, ks).Some? ==> Walk(edges, directed, start, ks).value.0 in Tos(preds)
    ensures NonNegative(edges) ==> forall ks: seq<nat> :: Walk(edges, directed, start, ks).Some? ==>
      DistOf(preds, Walk(edges, directed, start, ks).value.0) <= Walk(edges, directed, start, ks).value.1
  {
    forall i | 0 <= i < |preds|
      ensures WalkOfLength(edges, directed, start, preds[i].to, preds[i].dist)
    {
      assert Walk(edges, directed, start, pw[i]) == Some((preds[i].to, preds[i].dist));
    }
    forall ks: seq<nat> | Walk(edges, directed, start, ks).Some?
      ensures Walk(edges, directed, start, ks).value.0 in Tos(preds)
      ensures NonNegative(edges) ==>
        DistOf(preds, Walk(edges, directed, start, ks).value.0) <= Walk(edges, directed, start, ks).value.1
    {
      SettledWalk(edges, directed, preds, 0, ks);
    }
  }

  /** poll on the priority queue: the index of an entry of least distance. */
  method PollMin(prio: seq<Edge>) returns (i: nat)
    requires |prio| > 0
    ensures i < |prio| && forall j :: 0 <= j < |prio| ==> prio[i].dist <= prio[j].dist
  {
    i := 0;
    for j := 1 to |prio|
      invariant i < j && forall k :: 0 <= k < j ==> prio[i].dist <= prio[k].dist
    {
      if prio[j].dist < prio[i].dist {
        i := j;
      }
    }
  }

  /** The loop of dijk_path that queues an entry per neighbour. */
  method PushEntries(prio: seq<Edge>, v: Vertex, d: int, ns: seq<Pair>) returns (q: seq<Edge>)
    ensures q == prio + Entries(v, d, ns)
  {
    q := prio;
    for i := 0 to |ns|
      invariant q == prio + Entries(v, d, ns[..i])
    {
      assert ns[..i + 1][..i] == ns[..i];
      q := q + [Edge(Some(v), ns[i].vertex, ns[i].dist + d)];
    }
    assert ns[..|ns|] == ns;
  }

  // ---------------------------------------------------------------------------
  // depth_first_order: a recursive visit that records a vertex, then visits each
  // neighbour not yet recorded.
  // ---------------------------------------------------------------------------

  /** A walk ends where it starts or at a vertex some edge touches. */
  lemma {:induction false} WalkEnd(edges: seq<Edge>, directed: bool, a: Vertex, ks: seq<nat>)
    requires Walk(edges, directed, a, ks).Some?
    ensures Walk(edges, directed, a, ks).value.0 in EdgeVertices(edges) + {a}
    decreases |ks|
  {
    if ks != [] {
      var p := Yielded(edges[ks[0]], directed, a)[0];
      NeighbourComplete(edges, directed, a, ks[0]);
      NeighboursInEdgeVertices(edges, directed, a, p);
      WalkEnd(edges, directed, p.vertex, ks[1..]);
    }
  }

  lemma ReachableIn(edges: seq<Edge>, directed: bool, start: Vertex, y: Vertex)
    requires Reachable(edges, directed, start, y)
    ensures y in EdgeVertices(edges) + {start}
  {
    var ks :| Walk(edges, directed, start, ks).Some? && Walk(edges, directed, start, ks).value.0 == y;
    WalkEnd(edges, directed, start, ks);
  }

  /** Every recorded vertex that is no longer being visited has all its neighbours
    * recorded. */
  ghost predicate ClosedExcept(edges: seq<Edge>, directed: bool, visited: seq<Vertex>, active: set<Vertex>)
  {
    forall u, p :: u in visited && u !in active && p in Neighbours(edges, directed, u) ==> p.vertex in visited
  }

  lemma ClosedExceptGrow(edges: seq<Edge>, directed: bool, visited: seq<Vertex>, out: seq<Vertex>, active: set<Vertex>, v: Vertex)
    requires ClosedExcept(edges, directed, visited, active) && v !in visited
    ensures ClosedExcept(edges, directed, visited + [v], active + {v})
  {
  }

  lemma ClosedExceptDone(edges: seq<Edge>, directed: bool, out: seq<Vertex>, active: set<Vertex>, v: Vertex)
    requires ClosedExcept(edges, directed, out, active + {v})
    requires forall p :: p in Neighbours(edges, directed, v) ==> p.vertex in out
    ensures ClosedExcept(edges, directed, out, active)
  {
  }

  /** The loop invariant of __depth_first_order while it visits v's neighbours. */
  ghost predicate DfsLoop(edges: seq<Edge>, directed: bool, start: Vertex, visited: seq<Vertex>, v: Vertex,
                          active: set<Vertex>, out: seq<Vertex>)
  {
    && |out| > |visited| && out[..|visited|] == visited && out[|visited|] == v
    && NoDuplicates(out)
    && ClosedExcept(edges, directed, out, active + {v})
    && (forall y :: y in out ==> Reachable(edges, directed, start, y))
  }

  /** Before the recursive visit of a neighbour w of v: w is reachable, the vertices
    * being visited are recorded, and fewer vertices are left to record. */
  lemma DfsCallPre(edges: seq<Edge>, directed: bool, start: Vertex, visited: seq<Vertex>, v: Vertex,
                   active: set<Vertex>, out: seq<Vertex>, p: Pair)
    requires DfsLoop(edges, directed, start, visited, v, active, out)
    requires active <= Elems(visited) && p in Neighbours(edges, directed, v)
    ensures Reachable(edges, directed, start, p.vertex)
    ensures active + {v} <= Elems(out)
    ensures |EdgeVertices(edges) + {start} - Elems(out)| < |EdgeVertices(edges) + {start} - Elems(visited)|
  {
    assert v in out;
    ReachStep(edges, directed, start, v, p);
    ReachablesIn(edges, directed, start, out);
    PrefixFewer(EdgeVertices(edges) + {start}, visited, out, v);
  }

  lemma ReachablesIn(edges: seq<Edge>, directed: bool, start: Vertex, out: seq<Vertex>)
    requires forall y :: y in out ==> Reachable(edges, directed, start, y)
    ensures Elems(out) <= EdgeVertices(edges) + {start}
  {
    forall y | y in out
      ensures y in EdgeVertices(edges) + {start}
    {
      ReachableIn(edges, directed, start, y);
    }
  }

  /** A list that extends visited by v, without repeats, leaves fewer of U unrecorded. */
  lemma PrefixFewer<T>(U: set<T>, visited: seq<T>, out: seq<T>, v: T)
    requires |out| > |visited| && out[..|visited|] == visited && out[|visited|] == v
    requires NoDuplicates(out) && Elems(out) <= U
    ensures Elems(visited) + {v} <= Elems(out)
    ensures |U - Elems(out)| < |U - Elems(visited)|
  {
    assert forall y :: y in visited ==> y in out[..|visited|];
    assert v in out;
    var X := U - Elems(out);
    var Y := (Elems(out) - Elems(visited)) * U;
    assert v in Y;
    assert Y == (Y - {v}) + {v};
    assert X * Y == {};
    assert U - Elems(visited) == X + Y;
  }

  /** After the recursive visit: the loop invariant holds for the longer list. */
  lemma DfsCallPost(edges: seq<Edge>, directed: bool, start: Vertex, visited: seq<Vertex>, v: Vertex,
                    active: set<Vertex>, out: seq<Vertex>, out': seq<Vertex>)
    requires DfsLoop(edges, directed, start, visited, v, active, out)
    requires |out'| > |out| && out'[..|out|] == out && NoDuplicates(out')
    requires ClosedExcept(edges, directed, out', active + {v})
    requires forall y :: y in out' ==> Reachable(edges, directed, start, y)
    ensures DfsLoop(edges, directed, start, visited, v, active, out')
    ensures forall y :: y in out ==> y in out'
  {
    assert out'[..|visited|] == out[..|out|][..|visited|];
    assert forall y :: y in out ==> y in out'[..|out|];
  }

  class Graph {
    var vertices: seq<Vertex>
    var edges: seq<Edge>
    var directed: bool

    /** Edges added with addEdge always have a source vertex. */
    ghost predicate Valid()
      reads this
    {
      forall k :: 0 <= k < |edges| ==> edges[k].from.Some?
    }

    constructor(directed: bool)
      ensures Valid() && vertices == [] && edges == [] && this.directed == directed
    {
      this.directed := directed;
      vertices := [];
      edges := [];
    }

    method AddVertex(name: string) returns (v: Vertex)
      modifies this
      requires Valid()
      ensures Valid() && fresh(v) && v.name == name
      ensures vertices == old(vertices) + [v] && edges == old(edges) && directed == old(directed)
    {
      v := new Vertex(name);
      vertices := vertices + [v];
    }

    method AddEdge(from: Vertex, to: Vertex, dist: int) returns (e: Edge)
      modifies this
      requires Valid()
      ensures Valid() && e == Edge(Some(from), to, dist)
      ensures edges == old(edges) + [e] && vertices == old(vertices) && directed == old(directed)
    {
      e := Edge(Some(from), to, dist);
      edges := edges + [e];
    }

    method GetNeighbours(v: Vertex) returns (vec: seq<Pair>)
      ensures vec == Neighbours(edges, directed, v)
    {
      vec := [];
      for i := 0 to |edges|
        invariant vec == Neighbours(edges[..i], directed, v)
      {
        var e := edges[i];
        NeighboursAppend(edges[..i], e, directed, v);
        assert edges[..i + 1] == edges[..i] + [e];
        if e.from == Some(v) {
          vec := vec + [Pair(e.to, e.dist)];
        } else if !directed && e.to == v && e.from.Some? {
          vec := vec + [Pair(e.from.value, e.dist)];
        }
      }
      assert edges[..|edges|] == edges;
    }

    /** The loop of breadth_first_order that queues every neighbour. */
    static method Enqueue(queue: seq<Vertex>, ns: seq<Pair>) returns (q: seq<Vertex>)
      ensures q == queue + Targets(ns)
    {
      q := queue;
      for i := 0 to |ns|
        invariant q == queue + Targets(ns[..i])
      {
        assert ns[..i + 1] == ns[..i] + [ns[i]];
        q := q + [ns[i].vertex];
      }
      assert ns[..|ns|] == ns;
    }

    /** breadth_first_order: a FIFO queue of vertices and a visited list that is
      * checked before a vertex is recorded.  The result lists start first, holds no
      * vertex twice, and is exactly the set of vertices reachable from start. */
    method BreadthFirstOrder(start: Vertex) returns (visited: seq<Vertex>)
      ensures |visited| >= 1 && visited[0] == start && NoDuplicates(visited)
      ensures forall y :: y in visited ==> Reachable(edges, directed, start, y)
      ensures forall ks: seq<nat> :: Walk(edges, directed, start, ks).Some? ==> Walk(edges, directed, start, ks).value.0 in visited
    {
      ghost var U := EdgeVertices(edges) + {start};
      var queue: seq<Vertex> := [start];
      visited := [];
      ghost var wit: map<Vertex, seq<nat>> := map[start := []];
      BfsStart(edges, directed, start);
      while |queue| > 0
        invariant BfsInv(edges, directed, start, U, visited, queue, wit)
        decreases |U - Elems(visited)|, |queue|
      {
        var next := queue[0];
        ghost var qOld := queue;
        queue := queue[1..];
        if next in visited {
          PopKeeps(edges, directed, start, U, visited, qOld, wit);
          continue;
        }
        ghost var vOld := visited;
        visited := visited + [next];
        var ns := GetNeighbours(next);
        queue := Enqueue(queue, ns);
        wit := VisitKeeps(edges, directed, start, U, vOld, qOld, wit, ns);
      }
      BfsFinish(edges, directed, start, U, visited, wit);
    }

    /** dijk_path: the first entry polled for a vertex is its predecessor edge.  The
      * list starts with the start edge, holds one edge per vertex reachable from start,
      * each edge's source is settled before it, and each distance is the length of a
      * walk from start; with non-negative weights the distances are shortest ones and
      * come out in non-decreasing order. */
    method DijkPath(start: Vertex) returns (predecessors: seq<Edge>)
      ensures |predecessors| >= 1 && predecessors[0] == Edge(None, start, 0)
      ensures NoDuplicates(Tos(predecessors))
      ensures SourcesEarlier(predecessors)
      ensures forall i :: 0 <= i < |predecessors| ==>
        WalkOfLength(edges, directed, start, predecessors[i].to, predecessors[i].dist)
      ensures forall ks: seq<nat> :: Walk(edges, directed, start, ks).Some? ==>
        Walk(edges, directed, start, ks).value.0 in Tos(predecessors)
      ensures NonNegative(edges) ==> forall ks: seq<nat> :: Walk(edges, directed, start, ks).Some? ==>
        DistOf(predecessors, Walk(edges, directed, start, ks).value.0) <= Walk(edges, directed, start, ks).value.1
      ensures NonNegative(edges) ==> forall i, j :: 0 <= i < j < |predecessors| ==>
        predecessors[i].dist <= predecessors[j].dist
      ensures forall i :: 0 < i < |predecessors| ==>
        predecessors[i].from.Some? && LinkedEdge(edges, directed, predecessors, predecessors[i])
    {
      ghost var U := EdgeVertices(edges) + {start};
      DijkStart(edges, directed, start);
      ghost var pw;
      predecessors, pw := SettleAll(start, U, [Edge(None, start, 0)], [], {}, [], [[]]);
      DijkFinish(edges, directed, start, U, predecessors, pw);
      LinkedFinish(edges, directed, predecessors);
    }

    /** dijk_path's loop: poll the nearest entry; an entry for a settled vertex is dropped,
      * any other settles its vertex and queues the vertex's neighbours. */
    method SettleAll(ghost start: Vertex, ghost U: set<Vertex>, prio0: seq<Edge>, preds0: seq<Edge>,
                     visited0: set<Vertex>, ghost pw0: seq<seq<nat>>, ghost qw0: seq<seq<nat>>)
      returns (predecessors: seq<Edge>, ghost pw: seq<seq<nat>>)
      requires U == EdgeVertices(edges) + {start}
      requires DijkInv(edges, directed, start, U, preds0, pw0, prio0, qw0)
      requires Linked(edges, directed, preds0, preds0) && Linked(edges, directed, preds0, prio0)
      requires visited0 == Elems(Tos(preds0))
      ensures DijkInv(edges, directed, start, U, predecessors, pw, [], [])
      ensures Linked(edges, directed, predecessors, predecessors)
    {
      var prio, visited := prio0, visited0;
      predecessors, pw := preds0, pw0;
      ghost var qw := qw0;
      while |prio| > 0
        invariant DijkInv(edges, directed, start, U, predecessors, pw, prio, qw)
        invariant Linked(edges, directed, predecessors, predecessors) && Linked(edges, directed, predecessors, prio)
        invariant visited == Elems(Tos(predecessors))
        decreases |U - visited|, |prio|
      {
        var i := PollMin(prio);
        var nextprio := prio[i];
        ghost var prioOld, qwOld := prio, qw;
        prio := Removed(prio, i);
        qw := Removed(qw, i);
        if nextprio.to in visited {
          DropKeeps(edges, directed, start, U, predecessors, pw, prioOld, qwOld, i);
          DropLinked(edges, directed, predecessors, prioOld, i);
          continue;
        }
        ghost var predsOld, pwOld := predecessors, pw;
        visited := visited + {nextprio.to};
        predecessors := predecessors + [nextprio];
        pw := pw + [qwOld[i]];
        var ns := GetNeighbours(nextprio.to);
        prio := PushEntries(prio, nextprio.to, nextprio.dist, ns);
        qw := SettleKeeps(edges, directed, start, U, predsOld, pwOld, prioOld, qwOld, i, ns);
        SettleLinks(edges, directed, start, U, predsOld, prioOld, i, ns);
      }
    }

    /** __depth_first_order: records v, then visits every neighbour of v not yet
      * recorded.  The list only grows, v comes right after what was recorded before,
      * no vertex is recorded twice, and on return every recorded vertex outside the
      * ones still being visited has all its neighbours recorded. */
    method DepthFirstVisit(v: Vertex, visited: seq<Vertex>, ghost start: Vertex, ghost active: set<Vertex>)
      returns (out: seq<Vertex>)
      requires v !in visited && NoDuplicates(visited)
      requires active <= Elems(visited) && ClosedExcept(edges, directed, visited, active)
      requires Reachable(edges, directed, start, v)
      requires forall y :: y in visited ==> Reachable(edges, directed, start, y)
      ensures |out| > |visited| && out[..|visited|] == visited && out[|visited|] == v
      ensures NoDuplicates(out)
      ensures ClosedExcept(edges, directed, out, active)
      ensures forall y :: y in out ==> Reachable(edges, directed, start, y)
      decreases |EdgeVertices(edges) + {start} - Elems(visited)|
    {
      ClosedExceptGrow(edges, directed, visited, visited, active, v);
      NoDupAppend(visited, v);
      out := visited + [v];
      assert out[..|visited|] == visited;
      var ns := GetNeighbours(v);
      for j := 0 to |ns|
        invariant DfsLoop(edges, directed, start, visited, v, active, out)
        invariant forall l :: 0 <= l < j ==> ns[l].vertex in out
      {
        if ns[j].vertex in out {
          continue;
        }
        DfsCallPre(edges, directed, start, visited, v, active, out, ns[j]);
        var out' := DepthFirstVisit(ns[j].vertex, out, start, active + {v});
        DfsCallPost(edges, directed, start, visited, v, active, out, out');
        out := out';
      }
      ClosedExceptDone(edges, directed, out, active, v);
    }

    /** depth_first_order: the list starts with start, holds no vertex twice, and is
      * exactly the set of vertices reachable from start. */
    method DepthFirstOrder(start: Vertex) returns (visited: seq<Vertex>)
      ensures |visited| >= 1 && visited[0] == start && NoDuplicates(visited)
      ensures forall y :: y in visited ==> Reachable(edges, directed, start, y)
      ensures forall ks: seq<nat> :: Walk(edges, directed, start, ks).Some? ==> Walk(edges, directed, start, ks).value.0 in visited
    {
      ReachSelf(edges, directed, start);
      visited := DepthFirstVisit(start, [], start, {});
      forall ks: seq<nat> | Walk(edges, directed, start, ks).Some?
        ensures Walk(edges, directed, start, ks).value.0 in visited
      {
        ClosedHoldsWalk(edges, directed, Elems(visited), start, ks);
      }
    }
  }
}
