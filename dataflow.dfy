/**
 * Gen/kill dataflow analysis over a control-flow graph, after parser/grammars/dataflow.cpp.  A
 * node lists the ids of its predecessors and successors; a neighbour is looked up as the first
 * node with its id.  Node ids are numbers here (strings, compared for equality, in the source).
 * The in and out sets of the nodes are sequences of sets, one per node.
 */
module Dataflow {
  datatype Node = Node(id: int, pred: seq<int>, succ: seq<int>)

  /** Every predecessor and successor id names one of the nodes. */
  predicate Closed(nodes: seq<Node>)
  {
    (forall k, j :: 0 <= k < |nodes| && 0 <= j < |nodes[k].succ| ==> HasNode(nodes, nodes[k].succ[j]))
    && (forall k, j :: 0 <= k < |nodes| && 0 <= j < |nodes[k].pred| ==> HasNode(nodes, nodes[k].pred[j]))
  }

  predicate HasNode(nodes: seq<Node>, id: int)
  {
    exists k :: 0 <= k < |nodes| && nodes[k].id == id
  }

  /** The index of the first node with this id. */
  function IndexOf(nodes: seq<Node>, id: int): (k: nat)
    requires HasNode(nodes, id)
    ensures k < |nodes| && nodes[k].id == id && forall j :: 0 <= j < k ==> nodes[j].id != id
  {
    if nodes[0].id == id then 0
    else
      assert HasNode(nodes[1..], id) by {
        var k :| 0 <= k < |nodes| && nodes[k].id == id;
        assert nodes[1..][k - 1].id == id;
      }
      1 + IndexOf(nodes[1..], id)
  }

  /** The find_if of the *_iter functions: the first node with this id. */
  method FindNode(nodes: seq<Node>, id: int) returns (idx: nat)
    requires HasNode(nodes, id)
    ensures idx == IndexOf(nodes, id)
  {
    idx := 0;
    while nodes[idx].id != id
      invariant idx <= IndexOf(nodes, id)
      decreases IndexOf(nodes, id) - idx
    {
      idx := idx + 1;
    }
  }

  // ---------------------------------------------------------------------------------------------
  // The transfer functions

  /** The union of the sets of the nodes with these ids. */
  function UnionAt(nodes: seq<Node>, ids: seq<int>, vals: seq<set<int>>): set<int>
    requires |vals| == |nodes| && forall j :: 0 <= j < |ids| ==> HasNode(nodes, ids[j])
  {
    if ids == [] then {}
    else UnionAt(nodes, ids[..|ids| - 1], vals) + vals[IndexOf(nodes, ids[|ids| - 1])]
  }

  /** Out sets of a backward analysis: each node's is the union of the in sets of its successors. */
  function OutBackward(nodes: seq<Node>, inSet: seq<set<int>>): (r: seq<set<int>>)
    requires Closed(nodes) && |inSet| == |nodes|
    ensures |r| == |nodes|
  {
    seq(|nodes|, i requires 0 <= i < |nodes| => UnionAt(nodes, nodes[i].succ, inSet))
  }

  /** In sets of a forward analysis: each node's is the union of the out sets of its predecessors. */
  function InForward(nodes: seq<Node>, outSet: seq<set<int>>): (r: seq<set<int>>)
    requires Closed(nodes) && |outSet| == |nodes|
    ensures |r| == |nodes|
  {
    seq(|nodes|, i requires 0 <= i < |nodes| => UnionAt(nodes, nodes[i].pred, outSet))
  }

  /** The gen/kill step, the same in both directions: the kill set is removed, then the gen set
    * added. */
  function Transfer(gen: seq<set<int>>, kill: seq<set<int>>, x: seq<set<int>>): (r: seq<set<int>>)
    requires |gen| >= |x| && |kill| >= |x|
    ensures |r| == |x|
  {
    seq(|x|, i requires 0 <= i < |x| => (x[i] - kill[i]) + gen[i])
  }

  /** The union over the node's neighbours, as the loop over succ or pred builds it. */
  method GatherNeighbours(nodes: seq<Node>, ids: seq<int>, vals: seq<set<int>>) returns (s: set<int>)
    requires |vals| == |nodes| && forall j :: 0 <= j < |ids| ==> HasNode(nodes, ids[j])
    ensures s == UnionAt(nodes, ids, vals)
  {
    s := {};
    for j := 0 to |ids|
      invariant s == UnionAt(nodes, ids[..j], vals)
    {
      var idx := FindNode(nodes, ids[j]);
      assert ids[..j + 1][..j] == ids[..j];
      s := s + vals[idx];
    }
    assert ids[..|ids|] == ids;
  }

  /** out_set_backward_iter. */
  method OutSetBackwardIter(nodes: seq<Node>, inSet: seq<set<int>>) returns (outNew: seq<set<int>>)
    requires Closed(nodes) && |inSet| == |nodes|
    ensures outNew == OutBackward(nodes, inSet)
  {
    outNew := [];
    for k := 0 to |nodes|
      invariant |outNew| == k && forall i :: 0 <= i < k ==> outNew[i] == UnionAt(nodes, nodes[i].succ, inSet)
    {
      var outSet := GatherNeighbours(nodes, nodes[k].succ, inSet);
      outNew := outNew + [outSet];
    }
  }

  /** in_set_forward_iter. */
  method InSetForwardIter(nodes: seq<Node>, outSet: seq<set<int>>) returns (inNew: seq<set<int>>)
    requires Closed(nodes) && |outSet| == |nodes|
    ensures inNew == InForward(nodes, outSet)
  {
    inNew := [];
    for k := 0 to |nodes|
      invariant |inNew| == k && forall i :: 0 <= i < k ==> inNew[i] == UnionAt(nodes, nodes[i].pred, outSet)
    {
      var inSet := GatherNeighbours(nodes, nodes[k].pred, outSet);
      inNew := inNew + [inSet];
    }
  }

  /** One set of the gen/kill step: erase the kill set element by element, then insert gen. */
  method TransferOne(x: set<int>, gen: set<int>, kill: set<int>) returns (s: set<int>)
    ensures s == (x - kill) + gen
  {
    s := x;
    var todo := kill;
    while exists e :: e in todo
      invariant todo <= kill && s == x - (kill - todo)
      decreases todo
    {
      var e :| e in todo;
      s := s - {e};
      todo := todo - {e};
    }
    s := s + gen;
  }

  /** in_set_backward_iter: in = gen ∪ (out \ kill), node by node. */
  method InSetBackwardIter(nodes: seq<Node>, gen: seq<set<int>>, kill: seq<set<int>>, outSet: seq<set<int>>)
    returns (inNew: seq<set<int>>)
    requires |gen| >= |outSet| && |kill| >= |outSet|
    ensures inNew == Transfer(gen, kill, outSet)
  {
    inNew := TransferAll(gen, kill, outSet);
  }

  /** out_set_forward_iter: out = gen ∪ (in \ kill), node by node. */
  method OutSetForwardIter(nodes: seq<Node>, gen: seq<set<int>>, kill: seq<set<int>>, inSet: seq<set<int>>)
    returns (outNew: seq<set<int>>)
    requires |gen| >= |inSet| && |kill| >= |inSet|
    ensures outNew == Transfer(gen, kill, inSet)
  {
    outNew := TransferAll(gen, kill, inSet);
  }

  /** The loop the two gen/kill iterations share. */
  method TransferAll(gen: seq<set<int>>, kill: seq<set<int>>, x: seq<set<int>>) returns (r: seq<set<int>>)
    requires |gen| >= |x| && |kill| >= |x|
    ensures r == Transfer(gen, kill, x)
  {
    r := [];
    for i := 0 to |x|
      invariant |r| == i && forall q :: 0 <= q < i ==> r[q] == (x[q] - kill[q]) + gen[q]
    {
      var s := TransferOne(x[i], gen[i], kill[i]);
      r := r + [s];
    }
  }

  /** gen wins over kill: an element is in the result exactly when it is generated, or comes in
    * and is not killed. */
  lemma GenWins(gen: seq<set<int>>, kill: seq<set<int>>, x: seq<set<int>>, i: nat, e: int)
    requires |gen| >= |x| && |kill| >= |x| && i < |x|
    ensures e in Transfer(gen, kill, x)[i] <==> e in gen[i] || (e in x[i] && e !in kill[i])
  {
  }

  // ---------------------------------------------------------------------------------------------
  // Ordering and bounds

  /** a is below b node by node. */
  predicate Le(a: seq<set<int>>, b: seq<set<int>>)
  {
    |a| == |b| && forall i :: 0 <= i < |a| ==> a[i] <= b[i]
  }

  /** Every set of a lies within u. */
  predicate Within(a: seq<set<int>>, u: set<int>)
  {
    forall i :: 0 <= i < |a| ==> a[i] <= u
  }

  /** All the elements the gen sets bring in. */
  function Universe(gen: seq<set<int>>): (u: set<int>)
    ensures Within(gen, u)
  {
    if gen == [] then {}
    else Universe(gen[..|gen| - 1]) + gen[|gen| - 1]
  }

  lemma {:induction false} UnionAtMono(nodes: seq<Node>, ids: seq<int>, a: seq<set<int>>, b: seq<set<int>>)
    requires |a| == |nodes| && Le(a, b) && forall j :: 0 <= j < |ids| ==> HasNode(nodes, ids[j])
    ensures UnionAt(nodes, ids, a) <= UnionAt(nodes, ids, b)
  {
    if ids != [] {
      UnionAtMono(nodes, ids[..|ids| - 1], a, b);
    }
  }

  lemma {:induction false} UnionAtWithin(nodes: seq<Node>, ids: seq<int>, a: seq<set<int>>, u: set<int>)
    requires |a| == |nodes| && Within(a, u) && forall j :: 0 <= j < |ids| ==> HasNode(nodes, ids[j])
    ensures UnionAt(nodes, ids, a) <= u
  {
    if ids != [] {
      UnionAtWithin(nodes, ids[..|ids| - 1], a, u);
    }
  }

  /** Larger in sets give larger backward out sets, and all stay within the same bound. */
  lemma OutBackwardMono(nodes: seq<Node>, a: seq<set<int>>, b: seq<set<int>>, u: set<int>)
    requires Closed(nodes) && |a| == |nodes| && Le(a, b)
    ensures Le(OutBackward(nodes, a), OutBackward(nodes, b))
    ensures Within(b, u) ==> Within(OutBackward(nodes, b), u)
  {
    forall i | 0 <= i < |nodes|
      ensures UnionAt(nodes, nodes[i].succ, a) <= UnionAt(nodes, nodes[i].succ, b)
      ensures Within(b, u) ==> UnionAt(nodes, nodes[i].succ, b) <= u
    {
      UnionAtMono(nodes, nodes[i].succ, a, b);
      if Within(b, u) {
        UnionAtWithin(nodes, nodes[i].succ, b, u);
      }
    }
  }

  /** Larger out sets give larger forward in sets, and all stay within the same bound. */
  lemma InForwardMono(nodes: seq<Node>, a: seq<set<int>>, b: seq<set<int>>, u: set<int>)
    requires Closed(nodes) && |a| == |nodes| && Le(a, b)
    ensures Le(InForward(nodes, a), InForward(nodes, b))
    ensures Within(b, u) ==> Within(InForward(nodes, b), u)
  {
    forall i | 0 <= i < |nodes|
      ensures UnionAt(nodes, nodes[i].pred, a) <= UnionAt(nodes, nodes[i].pred, b)
      ensures Within(b, u) ==> UnionAt(nodes, nodes[i].pred, b) <= u
    {
      UnionAtMono(nodes, nodes[i].pred, a, b);
      if Within(b, u) {
        UnionAtWithin(nodes, nodes[i].pred, b, u);
      }
    }
  }

  /** The gen/kill step is monotone and keeps within the universe of the gen sets. */
  lemma TransferMono(gen: seq<set<int>>, kill: seq<set<int>>, a: seq<set<int>>, b: seq<set<int>>)
    requires |gen| == |kill| == |a| && Le(a, b)
    ensures Le(Transfer(gen, kill, a), Transfer(gen, kill, b))
    ensures Within(b, Universe(gen)) ==> Within(Transfer(gen, kill, b), Universe(gen))
  {
  }

  // ---------------------------------------------------------------------------------------------
  // Why the analyses stop

  /** How far the sets of a still are from the universe u, summed over the nodes. */
  function Gap(u: set<int>, a: seq<set<int>>): nat
  {
    if a == [] then 0 else Gap(u, a[..|a| - 1]) + |u - a[|a| - 1]|
  }

  lemma GapOne(u: set<int>, x: set<int>, y: set<int>)
    requires x <= y <= u
    ensures |u - y| <= |u - x| && (x != y ==> |u - y| < |u - x|)
  {
    assert u - x == (u - y) + (y - x) && (u - y) * (y - x) == {};
    if x != y {
      assert y - x != {};
    }
  }

  /** Growing sets that stay within u bring the gap down. */
  lemma {:induction false} GapDecreases(u: set<int>, a: seq<set<int>>, b: seq<set<int>>)
    requires Le(a, b) && Within(b, u)
    ensures Gap(u, b) <= Gap(u, a) && (a != b ==> Gap(u, b) < Gap(u, a))
    decreases |a|
  {
    if a != [] {
      var n := |a| - 1;
      GapDecreases(u, a[..n], b[..n]);
      GapOne(u, a[n], b[n]);
      assert a == a[..n] + [a[n]] && b == b[..n] + [b[n]];
    }
  }

  // ---------------------------------------------------------------------------------------------
  // The analyses

  /** A solution of the backward equations. */
  predicate BackwardSolution(nodes: seq<Node>, gen: seq<set<int>>, kill: seq<set<int>>, inSet: seq<set<int>>, outSet: seq<set<int>>)
    requires Closed(nodes) && |gen| == |kill| == |nodes|
  {
    |inSet| == |outSet| == |nodes| && outSet == OutBackward(nodes, inSet) && inSet == Transfer(gen, kill, outSet)
  }

  /** A solution of the forward equations. */
  predicate ForwardSolution(nodes: seq<Node>, gen: seq<set<int>>, kill: seq<set<int>>, inSet: seq<set<int>>, outSet: seq<set<int>>)
    requires Closed(nodes) && |gen| == |kill| == |nodes|
  {
    |inSet| == |outSet| == |nodes| && inSet == InForward(nodes, outSet) && outSet == Transfer(gen, kill, inSet)
  }

  function Empties(n: nat): (r: seq<set<int>>)
    ensures |r| == n && forall i :: 0 <= i < n ==> r[i] == {}
  {
    seq(n, i => {})
  }

  /** backward_analysis: from empty out sets and in = gen, recompute the out sets and then the in
    * sets until the out sets no longer change.  It stops, and ends at the least solution of the
    * backward equations. */
  method BackwardAnalysis(nodes: seq<Node>, gen: seq<set<int>>, kill: seq<set<int>>)
    returns (inSet: seq<set<int>>, outSet: seq<set<int>>)
    requires Closed(nodes) && |gen| == |kill| == |nodes|
    ensures BackwardSolution(nodes, gen, kill, inSet, outSet)
    ensures forall in', out' :: BackwardSolution(nodes, gen, kill, in', out') ==> Le(inSet, in') && Le(outSet, out')
  {
    ghost var u := Universe(gen);
    outSet := Empties(|nodes|);
    inSet := gen;
    assert forall i :: 0 <= i < |nodes| ==> Transfer(gen, kill, outSet)[i] == gen[i];
    while true
      invariant |inSet| == |outSet| == |nodes| && inSet == Transfer(gen, kill, outSet)
      invariant Le(outSet, OutBackward(nodes, inSet)) && Within(outSet, u) && Within(inSet, u)
      invariant forall in', out' :: BackwardSolution(nodes, gen, kill, in', out') ==> Le(inSet, in') && Le(outSet, out')
      decreases Gap(u, outSet)
    {
      var outNew := OutSetBackwardIter(nodes, inSet);
      if outSet == outNew {
        break;
      }
      OutBackwardMono(nodes, inSet, inSet, u);
      GapDecreases(u, outSet, outNew);
      TransferMono(gen, kill, outSet, outNew);
      forall in', out' | BackwardSolution(nodes, gen, kill, in', out')
        ensures Le(outNew, out') && Le(Transfer(gen, kill, outNew), in')
      {
        OutBackwardMono(nodes, inSet, in', u);
        TransferMono(gen, kill, outNew, out');
      }
      ghost var inOld := inSet;
      outSet := outNew;
      inSet := InSetBackwardIter(nodes, gen, kill, outSet);
      OutBackwardMono(nodes, inOld, inSet, u);
    }
  }

  /** forward_analysis: from empty in sets and out = gen, recompute the in sets and then the out
    * sets until the in sets no longer change.  It stops, and ends at the least solution of the
    * forward equations. */
  method ForwardAnalysis(nodes: seq<Node>, gen: seq<set<int>>, kill: seq<set<int>>)
    returns (inSet: seq<set<int>>, outSet: seq<set<int>>)
    requires Closed(nodes) && |gen| == |kill| == |nodes|
    ensures ForwardSolution(nodes, gen, kill, inSet, outSet)
    ensures forall in', out' :: ForwardSolution(nodes, gen, kill, in', out') ==> Le(inSet, in') && Le(outSet, out')
  {
    ghost var u := Universe(gen);
    inSet := Empties(|nodes|);
    outSet := gen;
    assert forall i :: 0 <= i < |nodes| ==> Transfer(gen, kill, inSet)[i] == gen[i];
    while true
      invariant |inSet| == |outSet| == |nodes| && outSet == Transfer(gen, kill, inSet)
      invariant Le(inSet, InForward(nodes, outSet)) && Within(outSet, u) && Within(inSet, u)
      invariant forall in', out' :: ForwardSolution(nodes, gen, kill, in', out') ==> Le(inSet, in') && Le(outSet, out')
      decreases Gap(u, inSet)
    {
      var inNew := InSetForwardIter(nodes, outSet);
      if inSet == inNew {
        break;
      }
      InForwardMono(nodes, outSet, outSet, u);
      GapDecreases(u, inSet, inNew);
      TransferMono(gen, kill, inSet, inNew);
      forall in', out' | ForwardSolution(nodes, gen, kill, in', out')
        ensures Le(inNew, in') && Le(Transfer(gen, kill, inNew), out')
      {
        InForwardMono(nodes, outSet, out', u);
        TransferMono(gen, kill, inNew, in');
      }
      ghost var outOld := outSet;
      inSet := inNew;
      outSet := OutSetForwardIter(nodes, gen, kill, inSet);
      InForwardMono(nodes, outOld, outSet, u);
    }
  }
}
