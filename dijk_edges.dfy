/**
 * The edge-list shortest-path search of algos/dijk.java.  Vertices are the
 * endpoints of the edges, the distance map holds (vertex, predecessor, distance)
 * per reached vertex, and one pass of the main loop relaxes the edges leaving the
 * current vertex, marks it visited and moves to the closest unvisited vertex that
 * has an entry.  Distances are `int` here.
 */
module DijkEdges {
  import opened Wrappers

  datatype Edge = Edge(from: string, to: string, dist: int)

  datatype Dist = Dist(vertex: string, predecessor: string, dist: int)

  /**
   * How `calc` ends.  `Done`: the unvisited set became empty and the map is
   * returned.  `Diverged`: no unvisited vertex has an entry, so the current vertex
   * stops changing; the state is reported at that point, after which the source
   * repeats the same pass forever.
   */
  datatype Outcome =
    | Done(distmap: map<string, Dist>)
    | Diverged(distmap: map<string, Dist>, unvisited: set<string>, vertcur: string, curdist: int)

  /** Every endpoint of every edge. */
  function Endpoints(edges: seq<Edge>): (r: set<string>)
    ensures forall i :: 0 <= i < |edges| ==> edges[i].from in r && edges[i].to in r
    ensures forall v :: v in r ==> exists i :: 0 <= i < |edges| && (edges[i].from == v || edges[i].to == v)
  {
    if |edges| == 0 then {}
    else
      var rest := Endpoints(edges[..|edges| - 1]);
      var e := edges[|edges| - 1];
      assert forall i :: 0 <= i < |edges| - 1 ==> edges[..|edges| - 1][i] == edges[i];
      rest + {e.from, e.to}
  }

  /** One step of the relaxation loop: only an edge leaving `vcur` is looked at. */
  function RelaxOne(dm: map<string, Dist>, e: Edge, vcur: string, cd: int): map<string, Dist>
  {
    if e.from != vcur then dm
    else if e.to !in dm then dm[e.to := Dist(e.to, vcur, cd + e.dist)]
    else if cd + e.dist < dm[e.to].dist then dm[e.to := Dist(e.to, vcur, cd + e.dist)]
    else dm
  }

  /** The relaxation loop over `es`, in order. */
  function Relaxed(es: seq<Edge>, dm: map<string, Dist>, vcur: string, cd: int): map<string, Dist>
  {
    if |es| == 0 then dm
    else RelaxOne(Relaxed(es[..|es| - 1], dm, vcur, cd), es[|es| - 1], vcur, cd)
  }

  /** The vertices that the edges leaving `vcur` point to. */
  function TargetsFrom(es: seq<Edge>, vcur: string): (r: set<string>)
    ensures forall v :: v in r <==> exists i :: 0 <= i < |es| && es[i].from == vcur && es[i].to == v
  {
    if |es| == 0 then {}
    else
      var e := es[|es| - 1];
      assert forall i :: 0 <= i < |es| - 1 ==> es[..|es| - 1][i] == es[i];
      TargetsFrom(es[..|es| - 1], vcur) + (if e.from == vcur then {e.to} else {})
  }

  /** An entry is created once and then only lowered; the new keys are exactly the targets of `vcur`. */
  lemma {:induction false} RelaxedLowers(es: seq<Edge>, dm: map<string, Dist>, vcur: string, cd: int)
    ensures Relaxed(es, dm, vcur, cd).Keys == dm.Keys + TargetsFrom(es, vcur)
    ensures forall k :: k in dm ==> Relaxed(es, dm, vcur, cd)[k].dist <= dm[k].dist
  {
    if |es| > 0 {
      RelaxedLowers(es[..|es| - 1], dm, vcur, cd);
    }
  }

  lemma {:induction false} RelaxedKeeps(es: seq<Edge>, dm: map<string, Dist>, vcur: string, cd: int)
    ensures dm.Keys <= Relaxed(es, dm, vcur, cd).Keys
  {
    if |es| > 0 {
      RelaxedKeeps(es[..|es| - 1], dm, vcur, cd);
    }
  }

  /** After the loop, every edge leaving `vcur` is satisfied: its target's distance is at most cd + weight. */
  lemma {:induction false} RelaxedBound(es: seq<Edge>, dm: map<string, Dist>, vcur: string, cd: int)
    ensures forall i :: 0 <= i < |es| && es[i].from == vcur ==>
      es[i].to in Relaxed(es, dm, vcur, cd) && Relaxed(es, dm, vcur, cd)[es[i].to].dist <= cd + es[i].dist
  {
    if |es| > 0 {
      var init := es[..|es| - 1];
      RelaxedBound(init, dm, vcur, cd);
      RelaxedLowers([es[|es| - 1]], Relaxed(init, dm, vcur, cd), vcur, cd);
      assert Relaxed([es[|es| - 1]], Relaxed(init, dm, vcur, cd), vcur, cd) == Relaxed(es, dm, vcur, cd) by {
        assert [es[|es| - 1]][..0] == [];
      }
      forall i | 0 <= i < |es| - 1 && es[i].from == vcur
        ensures es[i].to in Relaxed(es, dm, vcur, cd) && Relaxed(es, dm, vcur, cd)[es[i].to].dist <= cd + es[i].dist
      {
        assert init[i] == es[i];
      }
    }
  }

  /** Relaxing from a map that already satisfies every edge leaving `vcur` changes nothing. */
  lemma {:induction false} RelaxedStable(es: seq<Edge>, dm: map<string, Dist>, vcur: string, cd: int)
    requires forall i :: 0 <= i < |es| && es[i].from == vcur ==> es[i].to in dm && dm[es[i].to].dist <= cd + es[i].dist
    ensures Relaxed(es, dm, vcur, cd) == dm
  {
    if |es| > 0 {
      var init := es[..|es| - 1];
      assert forall i :: 0 <= i < |init| ==> init[i] == es[i];
      RelaxedStable(init, dm, vcur, cd);
    }
  }

  /** A second relaxation pass from the same vertex and distance is a no-op. */
  lemma RelaxedIdempotent(es: seq<Edge>, dm: map<string, Dist>, vcur: string, cd: int)
    ensures Relaxed(es, Relaxed(es, dm, vcur, cd), vcur, cd) == Relaxed(es, dm, vcur, cd)
  {
    RelaxedBound(es, dm, vcur, cd);
    RelaxedStable(es, Relaxed(es, dm, vcur, cd), vcur, cd);
  }

  /** Following the edges with indices `ks` from `start`: the end vertex and the summed weight. */
  ghost function PathEnd(edges: seq<Edge>, start: string, ks: seq<nat>): Option<(string, int)>
  {
    if |ks| == 0 then Some((start, 0))
    else match PathEnd(edges, start, ks[..|ks| - 1])
      case None => None
      case Some(p) =>
        var k := ks[|ks| - 1];
        if k < |edges| && edges[k].from == p.0 then Some((edges[k].to, p.1 + edges[k].dist)) else None
  }

  /** `d` is the length of some directed walk from `start` to `v`. */
  ghost predicate WalkOf(edges: seq<Edge>, start: string, v: string, d: int)
  {
    exists ks :: PathEnd(edges, start, ks) == Some((v, d))
  }

  lemma StepWalk(edges: seq<Edge>, start: string, u: string, d: int, k: nat)
    requires WalkOf(edges, start, u, d)
    requires k < |edges| && edges[k].from == u
    ensures WalkOf(edges, start, edges[k].to, d + edges[k].dist)
  {
    var ks :| PathEnd(edges, start, ks) == Some((u, d));
    assert (ks + [k])[..|ks|] == ks;
    assert PathEnd(edges, start, ks + [k]) == Some((edges[k].to, d + edges[k].dist));
  }

  /** Some edge runs from `p` to `v`. */
  predicate HasEdge(edges: seq<Edge>, p: string, v: string)
  {
    exists i :: 0 <= i < |edges| && edges[i].from == p && edges[i].to == v
  }

  /** What every entry of the map means: a real walk from start, ending with a real edge. */
  ghost predicate Sound(edges: seq<Edge>, start: string, dm: map<string, Dist>)
  {
    forall k :: k in dm ==>
      dm[k].vertex == k && WalkOf(edges, start, k, dm[k].dist) && HasEdge(edges, dm[k].predecessor, k)
  }

  lemma SoundSet(edges: seq<Edge>, start: string, dm: map<string, Dist>, i: nat, vcur: string, cd: int)
    requires Sound(edges, start, dm) && WalkOf(edges, start, vcur, cd)
    requires i < |edges| && edges[i].from == vcur
    ensures Sound(edges, start, dm[edges[i].to := Dist(edges[i].to, vcur, cd + edges[i].dist)])
  {
    StepWalk(edges, start, vcur, cd, i);
  }

  /** Relaxation keeps every entry meaningful. */
  lemma {:induction false} RelaxedSound(edges: seq<Edge>, es: seq<Edge>, start: string, dm: map<string, Dist>,
                                        vcur: string, cd: int)
    requires es <= edges
    requires Sound(edges, start, dm) && WalkOf(edges, start, vcur, cd)
    ensures Sound(edges, start, Relaxed(es, dm, vcur, cd))
  {
    if |es| > 0 {
      var init := es[..|es| - 1];
      RelaxedSound(edges, init, start, dm, vcur, cd);
      var m := Relaxed(init, dm, vcur, cd);
      var e := es[|es| - 1];
      if e.from == vcur && (e.to !in m || cd + e.dist < m[e.to].dist) {
        assert edges[|es| - 1] == e;
        SoundSet(edges, start, m, |es| - 1, vcur, cd);
      }
    }
  }

  /** No edge has a negative weight. */
  predicate NonNeg(edges: seq<Edge>)
  {
    forall i :: 0 <= i < |edges| ==> edges[i].dist >= 0
  }

  /** With non-negative weights leaving `vcur`, relaxation leaves an entry alone or sets it to at
    * least `cd`, strictly lowering it when it existed. */
  lemma {:induction false} RelaxedAbove(es: seq<Edge>, dm: map<string, Dist>, vcur: string, cd: int)
    requires forall i :: 0 <= i < |es| && es[i].from == vcur ==> es[i].dist >= 0
    ensures forall k :: k in Relaxed(es, dm, vcur, cd) ==>
      (k in dm && Relaxed(es, dm, vcur, cd)[k] == dm[k]) ||
      (Relaxed(es, dm, vcur, cd)[k].dist >= cd && (k in dm ==> Relaxed(es, dm, vcur, cd)[k].dist < dm[k].dist))
  {
    if |es| > 0 {
      var init := es[..|es| - 1];
      assert forall i :: 0 <= i < |init| ==> init[i] == es[i];
      RelaxedAbove(init, dm, vcur, cd);
      RelaxedKeeps(init, dm, vcur, cd);
      var m, e := Relaxed(init, dm, vcur, cd), es[|es| - 1];
      var r := Relaxed(es, dm, vcur, cd);
      assert r == RelaxOne(m, e, vcur, cd);
      assert e.from == vcur ==> e.dist >= 0;
      forall k | k in r
        ensures (k in dm && r[k] == dm[k]) || (r[k].dist >= cd && (k in dm ==> r[k].dist < dm[k].dist))
      {
        if k in m && r[k] == m[k] {
        } else {
          assert k == e.to && r[k].dist == cd + e.dist;
        }
      }
    }
  }

  /** The distance a processed vertex relaxed its edges with: 0 for the start, its entry otherwise. */
  ghost function Settle(start: string, dm: map<string, Dist>, u: string): int
  {
    if u == start || u !in dm then 0 else dm[u].dist
  }

  /** Every edge leaving a vertex of `V` is satisfied by the map. */
  ghost predicate EdgesRelaxed(edges: seq<Edge>, start: string, dm: map<string, Dist>, V: set<string>)
  {
    forall i :: 0 <= i < |edges| && edges[i].from in V ==>
      edges[i].to in dm && dm[edges[i].to].dist <= Settle(start, dm, edges[i].from) + edges[i].dist
  }

  /** The Dijkstra invariant at the head of the main loop, `V` being the vertices processed so far:
    * the next vertex is the start (first pass) or the closest unvisited one with an entry; every
    * processed entry is at most its distance, every unvisited entry at least; the edges leaving
    * processed vertices are satisfied. */
  ghost predicate Settled(edges: seq<Edge>, start: string, dm: map<string, Dist>, V: set<string>,
                          unvisited: set<string>, vertcur: string, curdist: int)
  {
    (V == {} ==> vertcur == start && curdist == 0 && dm == map[]) &&
    (V != {} ==> start in V && vertcur in unvisited && vertcur in dm && curdist == dm[vertcur].dist) &&
    vertcur !in V &&
    (forall u :: u in V && u != start ==> u in dm && dm[u].dist <= curdist) &&
    (forall v :: v in unvisited && v in dm ==> curdist <= dm[v].dist) &&
    EdgesRelaxed(edges, start, dm, V)
  }

  /** Relaxing from the next vertex satisfies its edges and leaves the processed entries alone. */
  lemma SettleStep(edges: seq<Edge>, start: string, dm: map<string, Dist>, V: set<string>,
                   unvisited: set<string>, vertcur: string, curdist: int, dm': map<string, Dist>)
    requires NonNeg(edges)
    requires Settled(edges, start, dm, V, unvisited, vertcur, curdist)
    requires dm' == Relaxed(edges, dm, vertcur, curdist)
    ensures EdgesRelaxed(edges, start, dm', V + {vertcur})
    ensures forall u :: u in V + {vertcur} && u != start ==> u in dm' && dm'[u].dist <= curdist
    ensures forall v :: v in unvisited && v in dm' ==> curdist <= dm'[v].dist
  {
    RelaxedAbove(edges, dm, vertcur, curdist);
    RelaxedLowers(edges, dm, vertcur, curdist);
    RelaxedBound(edges, dm, vertcur, curdist);
    forall u | u in V + {vertcur} && u != start
      ensures u in dm && dm'[u] == dm[u]
    {
    }
    assert Settle(start, dm', vertcur) == curdist;
    forall i | 0 <= i < |edges| && edges[i].from in V + {vertcur}
      ensures edges[i].to in dm' && dm'[edges[i].to].dist <= Settle(start, dm', edges[i].from) + edges[i].dist
    {
      if edges[i].from in V {
        assert Settle(start, dm', edges[i].from) == Settle(start, dm, edges[i].from);
      }
    }
  }

  /** The vertex Closest picks next restores the invariant. */
  lemma NextSettled(edges: seq<Edge>, start: string, dm: map<string, Dist>, V: set<string>,
                    unvisited: set<string>, vertcur: string, curdist: int, dm': map<string, Dist>, x: string, d: int)
    requires NonNeg(edges)
    requires Settled(edges, start, dm, V, unvisited, vertcur, curdist)
    requires unvisited * V == {}
    requires dm' == Relaxed(edges, dm, vertcur, curdist)
    requires x in unvisited - {vertcur} && x in dm' && d == dm'[x].dist
    requires forall u :: u in unvisited - {vertcur} && u in dm' ==> d <= dm'[u].dist
    ensures Settled(edges, start, dm', V + {vertcur}, unvisited - {vertcur}, x, d)
  {
    SettleStep(edges, start, dm, V, unvisited, vertcur, curdist, dm');
  }

  /** Once every edge is satisfied, every walk costs at least 0, and every non-empty walk at least
    * the entry of the vertex it ends at. */
  lemma {:induction false} WalkBound(edges: seq<Edge>, start: string, dm: map<string, Dist>, V: set<string>, ks: seq<nat>)
    requires NonNeg(edges) && EdgesRelaxed(edges, start, dm, V)
    requires forall i :: 0 <= i < |edges| ==> edges[i].from in V
    ensures PathEnd(edges, start, ks).Some? ==> PathEnd(edges, start, ks).value.1 >= 0
    ensures 0 < |ks| && PathEnd(edges, start, ks).Some? ==>
      PathEnd(edges, start, ks).value.0 in dm && dm[PathEnd(edges, start, ks).value.0].dist <= PathEnd(edges, start, ks).value.1
  {
    if |ks| > 0 {
      WalkBound(edges, start, dm, V, ks[..|ks| - 1]);
    }
  }

  /** Every non-empty walk from the start ends at a vertex with an entry no longer than the walk. */
  ghost predicate Shortest(edges: seq<Edge>, start: string, dm: map<string, Dist>)
  {
    forall ks :: 0 < |ks| && PathEnd(edges, start, ks).Some? ==>
      PathEnd(edges, start, ks).value.0 in dm && dm[PathEnd(edges, start, ks).value.0].dist <= PathEnd(edges, start, ks).value.1
  }

  lemma AllSettled(edges: seq<Edge>, start: string, dm: map<string, Dist>, V: set<string>)
    requires NonNeg(edges) && EdgesRelaxed(edges, start, dm, V) && Endpoints(edges) <= V
    ensures Shortest(edges, start, dm)
  {
    forall ks | 0 < |ks| && PathEnd(edges, start, ks).Some?
      ensures PathEnd(edges, start, ks).value.0 in dm && dm[PathEnd(edges, start, ks).value.0].dist <= PathEnd(edges, start, ks).value.1
    {
      WalkBound(edges, start, dm, V, ks);
    }
  }

  /** Every visited endpoint other than the start has an entry. */
  ghost predicate Reached(edges: seq<Edge>, start: string, unvisited: set<string>, dm: map<string, Dist>)
  {
    forall v :: v in Endpoints(edges) && v !in unvisited && v != start ==> v in dm
  }

  lemma ReachedStep(edges: seq<Edge>, start: string, unvisited: set<string>, dm: map<string, Dist>,
                    dm': map<string, Dist>, vcur: string)
    requires Reached(edges, start, unvisited, dm) && dm.Keys <= dm'.Keys
    requires vcur != start ==> vcur in dm
    ensures Reached(edges, start, unvisited - {vcur}, dm')
  {
  }

  lemma RemoveOne<T>(U: set<T>, x: T)
    ensures |U - {x}| == if x in U then |U| - 1 else |U|
  {
    if x in U {
      assert U == (U - {x}) + {x};
    } else {
      assert U - {x} == U;
    }
  }

  /** Lines 61-68: the unvisited set starts as every edge endpoint. */
  method InitUnvisited(edges: seq<Edge>) returns (unvisited: set<string>)
    ensures unvisited == Endpoints(edges)
  {
    unvisited := {};
    for i := 0 to |edges|
      invariant unvisited == Endpoints(edges[..i])
    {
      assert edges[..i + 1][..i] == edges[..i];
      unvisited := unvisited + {edges[i].from, edges[i].to};
    }
    assert edges[..|edges|] == edges;
  }

  /** Lines 73-95: relax every edge leaving `vcur`. */
  method RelaxFrom(edges: seq<Edge>, start: string, dm: map<string, Dist>, vcur: string, cd: int)
    returns (dm': map<string, Dist>)
    requires Sound(edges, start, dm) && WalkOf(edges, start, vcur, cd)
    ensures dm' == Relaxed(edges, dm, vcur, cd)
    ensures Sound(edges, start, dm')
  {
    dm' := dm;
    for i := 0 to |edges|
      invariant dm' == Relaxed(edges[..i], dm, vcur, cd)
    {
      assert edges[..i + 1][..i] == edges[..i];
      var e := edges[i];
      if e.from != vcur {
        continue;
      }
      if e.to !in dm' || cd + e.dist < dm'[e.to].dist {
        dm' := dm'[e.to := Dist(e.to, vcur, cd + e.dist)];
      }
    }
    assert edges[..|edges|] == edges;
    RelaxedSound(edges, edges, start, dm, vcur, cd);
  }

  /** Lines 103-116: scan the unvisited set for the closest vertex with an entry; the current vertex and
    * distance stay as they are when there is none. */
  method Closest(dm: map<string, Dist>, unvisited: set<string>, vcur: string, cd: int)
    returns (found: bool, v: string, d: int)
    ensures found <==> exists u :: u in unvisited && u in dm
    ensures !found ==> v == vcur && d == cd
    ensures found ==> v in unvisited && v in dm && d == dm[v].dist
    ensures found ==> forall u :: u in unvisited && u in dm ==> d <= dm[u].dist
  {
    found, v, d := false, vcur, cd;
    var rest := unvisited;
    while rest != {}
      invariant rest <= unvisited
      invariant found <==> exists u :: u in unvisited - rest && u in dm
      invariant !found ==> v == vcur && d == cd
      invariant found ==> v in unvisited && v in dm && d == dm[v].dist
      invariant found ==> forall u :: u in unvisited - rest && u in dm ==> d <= dm[u].dist
      decreases rest
    {
      var vert :| vert in rest;
      rest := rest - {vert};
      if vert !in dm {
        continue;
      }
      if !found || dm[vert].dist < d {
        found, v, d := true, vert, dm[vert].dist;
      }
    }
  }

  /** The invariant of the main loop: the unvisited vertices are the endpoints not yet processed,
    * the Dijkstra invariant holds when no weight is negative, every entry is meaningful, the current
    * distance is that of a walk to the current vertex, and every processed endpoint has an entry. */
  ghost predicate CalcInv(edges: seq<Edge>, start: string, dm: map<string, Dist>, V: set<string>,
                          unvisited: set<string>, vertcur: string, curdist: int)
  {
    unvisited == Endpoints(edges) - V &&
    (NonNeg(edges) ==> Settled(edges, start, dm, V, unvisited, vertcur, curdist)) &&
    Sound(edges, start, dm) && WalkOf(edges, start, vertcur, curdist) &&
    (vertcur != start ==> vertcur in dm) &&
    Reached(edges, start, unvisited, dm)
  }

  /** A pass that finds a next vertex keeps the loop invariant. */
  lemma CalcAdvance(edges: seq<Edge>, start: string, dm: map<string, Dist>, V: set<string>,
                    unvisited: set<string>, vertcur: string, curdist: int, dm': map<string, Dist>, x: string, d: int)
    requires CalcInv(edges, start, dm, V, unvisited, vertcur, curdist)
    requires dm' == Relaxed(edges, dm, vertcur, curdist) && Sound(edges, start, dm')
    requires Reached(edges, start, unvisited - {vertcur}, dm')
    requires x in unvisited - {vertcur} && x in dm' && d == dm'[x].dist
    requires forall u :: u in unvisited - {vertcur} && u in dm' ==> d <= dm'[u].dist
    ensures CalcInv(edges, start, dm', V + {vertcur}, unvisited - {vertcur}, x, d)
  {
    if NonNeg(edges) {
      NextSettled(edges, start, dm, V, unvisited, vertcur, curdist, dm', x, d);
    }
  }

  /** A pass that leaves no unvisited vertex ends with every non-empty walk bounding its entry. */
  lemma CalcFinish(edges: seq<Edge>, start: string, dm: map<string, Dist>, V: set<string>,
                   unvisited: set<string>, vertcur: string, curdist: int, dm': map<string, Dist>)
    requires CalcInv(edges, start, dm, V, unvisited, vertcur, curdist)
    requires dm' == Relaxed(edges, dm, vertcur, curdist)
    requires unvisited - {vertcur} == {}
    ensures NonNeg(edges) ==> Shortest(edges, start, dm')
  {
    if NonNeg(edges) {
      SettleStep(edges, start, dm, V, unvisited, vertcur, curdist, dm');
      AllSettled(edges, start, dm', V + {vertcur});
    }
  }

  /** dijk.calc.  The debug output of lines 119-143 is left out.  With no negative weight, a map
    * that is returned holds, for every vertex some non-empty walk from the start reaches, the
    * length of a shortest such walk. */
  method Calc(edges: seq<Edge>, start: string) returns (r: Outcome)
    ensures Sound(edges, start, r.distmap)
    ensures r.Done? ==> forall v :: v in Endpoints(edges) && v != start ==> v in r.distmap
    ensures r.Done? && NonNeg(edges) ==> Shortest(edges, start, r.distmap)
    ensures r.Diverged? ==>
      r.unvisited != {} && r.unvisited <= Endpoints(edges) && r.vertcur !in r.unvisited &&
      (forall v :: v in r.unvisited ==> v !in r.distmap) &&
      Relaxed(edges, r.distmap, r.vertcur, r.curdist) == r.distmap
  {
    var vertcur := start;
    var curdist := 0;
    var distmap: map<string, Dist> := map[];
    var unvisited := InitUnvisited(edges);
    assert PathEnd(edges, start, []) == Some((start, 0));
    ghost var V: set<string> := {};

    while unvisited != {}
      invariant CalcInv(edges, start, distmap, V, unvisited, vertcur, curdist)
      decreases |unvisited| + (if vertcur in unvisited then 0 else 1)
    {
      var old_dm := distmap;
      distmap := RelaxFrom(edges, start, distmap, vertcur, curdist);
      RelaxedKeeps(edges, old_dm, vertcur, curdist);
      var left := unvisited - {vertcur};
      ReachedStep(edges, start, unvisited, old_dm, distmap, vertcur);
      var found, v, d := Closest(distmap, left, vertcur, curdist);
      if !found && left != {} {
        RelaxedIdempotent(edges, old_dm, vertcur, curdist);
        return Diverged(distmap, left, vertcur, curdist);
      }
      if !found {
        CalcFinish(edges, start, old_dm, V, unvisited, vertcur, curdist, distmap);
        return Done(distmap);
      }
      CalcAdvance(edges, start, old_dm, V, unvisited, vertcur, curdist, distmap, v, d);
      RemoveOne(unvisited, vertcur);
      unvisited, vertcur, curdist, V := left, v, d, V + {vertcur};
    }
    if NonNeg(edges) {
      AllSettled(edges, start, distmap, V);
    }
    return Done(distmap);
  }
}
