/**
 * The binary-tree algorithms of libs/tree_algos.h.  Nodes live in a pool and point at each other
 * by their number, -1 standing for the null pointer; the pool keeps each field of the nodes as a
 * sequence indexed by node number, and the algorithms rewrite those fields in place.  A ghost
 * `Tree` names the shape hanging at a pointer: it drives the recursion's termination and the
 * functions the methods are proved against.
 */
module TreeAlgos {

  /** The null pointer. */
  const Null: int := -1

  /** Which pool nodes form a tree, and where. */
  datatype Tree = Nil | Node(left: Tree, id: nat, right: Tree)

  function Ids(t: Tree): set<nat>
  {
    match t
    case Nil => {}
    case Node(l, id, r) => Ids(l) + {id} + Ids(r)
  }

  /** No node occurs twice in the tree. */
  predicate Distinct(t: Tree)
  {
    match t
    case Nil => true
    case Node(l, id, r) => Distinct(l) && Distinct(r) && id !in Ids(l) && id !in Ids(r) && Ids(l) !! Ids(r)
  }

  /** Every node of the tree is a pool index below n. */
  predicate Bounded(t: Tree, n: nat): (b: bool)
    ensures b ==> forall x :: x in Ids(t) ==> x < n
  {
    match t
    case Nil => true
    case Node(l, id, r) => id < n && Bounded(l, n) && Bounded(r, n)
  }

  /** With left links L and right links R, tree t hangs at pointer p. */
  predicate ShapeIn(L: seq<int>, R: seq<int>, t: Tree, p: int): (b: bool)
    ensures b ==> Bounded(t, |L|) && Bounded(t, |R|)
  {
    match t
    case Nil => p == Null
    case Node(l, id, r) => p == id && id < |L| && id < |R| && ShapeIn(L, R, l, L[id]) && ShapeIn(L, R, r, R[id])
  }

  /** Links outside the tree do not matter to its shape. */
  lemma {:induction false} ShapeFrame(L: seq<int>, R: seq<int>, L': seq<int>, R': seq<int>, t: Tree, p: int)
    requires ShapeIn(L, R, t, p) && |L'| == |L| && |R'| == |R|
    requires forall x :: x in Ids(t) ==> L'[x] == L[x] && R'[x] == R[x]
    ensures ShapeIn(L', R', t, p)
  {
    if t.Node? {
      ShapeFrame(L, R, L', R', t.left, L[t.id]);
      ShapeFrame(L, R, L', R', t.right, R[t.id]);
    }
  }

  // ---------------------------------------------------------------------------------------------
  // bintree_insert, as functions of the shape

  /** Where bintree_insert hangs a node of value v below t: the node it becomes a child of, and
    * whether as its left child.  Smaller values go left, all others right. */
  function Slot(V: seq<int>, t: Tree, v: int): (s: (nat, bool))
    requires t.Node? && Bounded(t, |V|)
    ensures s.0 in Ids(t)
  {
    var id := t.id;
    if v < V[id] then (if t.left == Nil then (id, true) else Slot(V, t.left, v))
    else (if t.right == Nil then (id, false) else Slot(V, t.right, v))
  }

  /** The tree after hanging tree tn, whose root has value v, where bintree_insert puts it. */
  function Placed(V: seq<int>, t: Tree, tn: Tree, v: int): (r: Tree)
    requires Bounded(t, |V|)
    ensures Ids(r) == Ids(t) + Ids(tn)
  {
    match t
    case Nil => tn
    case Node(l, id, r) => if v < V[id] then Node(Placed(V, l, tn, v), id, r) else Node(l, id, Placed(V, r, tn, v))
  }

  /** The links after attaching node at the slot: exactly one link changes. */
  lemma {:induction false} PlacedShape(V: seq<int>, L: seq<int>, R: seq<int>, t: Tree, p: int, tn: Tree, node: nat)
    requires ShapeIn(L, R, t, p) && t.Node? && Distinct(t) && Bounded(t, |V|)
    requires ShapeIn(L, R, tn, node) && tn.Node? && Ids(t) !! Ids(tn)
    ensures var (a, goesLeft) := Slot(V, t, V'(V, node));
            var L' := if goesLeft then L[a := node] else L;
            var R' := if goesLeft then R else R[a := node];
            ShapeIn(L', R', Placed(V, t, tn, V'(V, node)), p)
  {
    var v := V'(V, node);
    var (a, goesLeft) := Slot(V, t, v);
    var L' := if goesLeft then L[a := node] else L;
    var R' := if goesLeft then R else R[a := node];
    var id := t.id;
    assert forall x :: x in Ids(tn) ==> L'[x] == L[x] && R'[x] == R[x];
    ShapeFrame(L, R, L', R', tn, node);
    if v < V[id] {
      ShapeFrame(L, R, L', R', t.right, R[id]);
      if t.left != Nil {
        PlacedShape(V, L, R, t.left, L[id], tn, node);
      }
    } else {
      ShapeFrame(L, R, L', R', t.left, L[id]);
      if t.right != Nil {
        PlacedShape(V, L, R, t.right, R[id], tn, node);
      }
    }
  }

  /** The value of the node being inserted (0 for a node outside the pool). */
  function V'(V: seq<int>, node: nat): int
  {
    if node < |V| then V[node] else 0
  }

  /** Attaching a tree disjoint from t keeps the nodes distinct. */
  lemma {:induction false} PlacedDistinct(V: seq<int>, t: Tree, tn: Tree, v: int)
    requires Distinct(t) && Distinct(tn) && Ids(t) !! Ids(tn) && Bounded(t, |V|)
    ensures Distinct(Placed(V, t, tn, v))
  {
    if t.Node? {
      PlacedDistinct(V, t.left, tn, v);
      PlacedDistinct(V, t.right, tn, v);
    }
  }

  // ---------------------------------------------------------------------------------------------
  // Search-tree order and bintree_for_each

  /** The search-tree order bintree_insert builds: smaller values left, the others right. */
  predicate Ordered(V: seq<int>, t: Tree)
    requires Bounded(t, |V|)
  {
    match t
    case Nil => true
    case Node(l, id, r) =>
      && Ordered(V, l) && Ordered(V, r)
      && (forall x :: x in Ids(l) ==> V[x] < V[id])
      && (forall x :: x in Ids(r) ==> V[x] >= V[id])
  }

  /** The nodes in the order bintree_for_each visits them: left subtree, node, right subtree. */
  function InOrder(t: Tree): (s: seq<nat>)
    ensures forall k :: 0 <= k < |s| ==> s[k] in Ids(t)
  {
    match t
    case Nil => []
    case Node(l, id, r) => InOrder(l) + [id] + InOrder(r)
  }

  /** The values of the nodes of s never decrease. */
  predicate NonDecreasing(V: seq<int>, s: seq<nat>)
    requires forall k :: 0 <= k < |s| ==> s[k] < |V|
  {
    forall i, j :: 0 <= i < j < |s| ==> V[s[i]] <= V[s[j]]
  }

  /** Two non-decreasing runs joined by a node no greater than the right run and greater than
    * the left run form a non-decreasing run. */
  lemma JoinSorted(V: seq<int>, sl: seq<nat>, id: nat, sr: seq<nat>)
    requires id < |V| && (forall k :: 0 <= k < |sl| ==> sl[k] < |V|) && (forall k :: 0 <= k < |sr| ==> sr[k] < |V|)
    requires NonDecreasing(V, sl) && NonDecreasing(V, sr)
    requires forall k :: 0 <= k < |sl| ==> V[sl[k]] < V[id]
    requires forall k :: 0 <= k < |sr| ==> V[sr[k]] >= V[id]
    ensures NonDecreasing(V, sl + [id] + sr)
  {
    var s := sl + [id] + sr;
    forall i, j | 0 <= i < j < |s|
      ensures V[s[i]] <= V[s[j]]
    {
      if j < |sl| {
        assert s[i] == sl[i] && s[j] == sl[j];
      } else if i > |sl| {
        assert s[i] == sr[i - |sl| - 1] && s[j] == sr[j - |sl| - 1];
      } else if i < |sl| && j > |sl| {
        assert s[i] == sl[i] && s[j] == sr[j - |sl| - 1];
      } else if i < |sl| {
        assert s[i] == sl[i] && s[j] == id;
      } else {
        assert s[i] == id && s[j] == sr[j - |sl| - 1];
      }
    }
  }

  /** The in-order walk of a search tree visits the values in non-decreasing order. */
  lemma {:induction false} InOrderSorted(V: seq<int>, t: Tree)
    requires Bounded(t, |V|) && Ordered(V, t)
    ensures NonDecreasing(V, InOrder(t))
  {
    if t.Node? {
      var l, id, r := t.left, t.id, t.right;
      InOrderSorted(V, l);
      InOrderSorted(V, r);
      var sl, sr := InOrder(l), InOrder(r);
      assert forall k :: 0 <= k < |sl| ==> sl[k] in Ids(l);
      assert forall k :: 0 <= k < |sr| ==> sr[k] in Ids(r);
      JoinSorted(V, sl, id, sr);
    }
  }

  /** Hanging a new leaf where bintree_insert puts it keeps the search-tree order. */
  lemma {:induction false} PlacedOrdered(V: seq<int>, t: Tree, node: nat)
    requires Bounded(t, |V|) && node < |V| && Ordered(V, t)
    ensures Bounded(Placed(V, t, Node(Nil, node, Nil), V[node]), |V|)
    ensures Ordered(V, Placed(V, t, Node(Nil, node, Nil), V[node]))
  {
    if t.Node? {
      PlacedOrdered(V, t.left, node);
      PlacedOrdered(V, t.right, node);
    }
  }

  /** Inserting a leaf adds its node to the in-order walk, which stays sorted by value. */
  lemma {:induction false} InsertedInOrder(V: seq<int>, t: Tree, node: nat)
    requires Bounded(t, |V|) && node < |V| && Ordered(V, t)
    ensures var t' := Placed(V, t, Node(Nil, node, Nil), V[node]);
            && Bounded(t', |V|)
            && multiset(InOrder(t')) == multiset(InOrder(t)) + multiset{node}
            && NonDecreasing(V, InOrder(t'))
  {
    PlacedOrdered(V, t, node);
    InOrderSorted(V, Placed(V, t, Node(Nil, node, Nil), V[node]));
    PlacedInOrder(V, t, Node(Nil, node, Nil), V[node]);
  }

  /** Placing tn adds the nodes of tn to the walk. */
  lemma {:induction false} PlacedInOrder(V: seq<int>, t: Tree, tn: Tree, v: int)
    requires Bounded(t, |V|)
    ensures multiset(InOrder(Placed(V, t, tn, v))) == multiset(InOrder(t)) + multiset(InOrder(tn))
  {
    match t
    case Nil =>
    case Node(l, id, r) =>
      if v < V[id] {
        var pl := Placed(V, l, tn, v);
        assert InOrder(Placed(V, t, tn, v)) == InOrder(pl) + [id] + InOrder(r);
        PlacedInOrder(V, l, tn, v);
        GrowLeft(InOrder(pl), InOrder(l), InOrder(tn), id, InOrder(r));
      } else {
        var pr := Placed(V, r, tn, v);
        assert InOrder(Placed(V, t, tn, v)) == InOrder(l) + [id] + InOrder(pr);
        PlacedInOrder(V, r, tn, v);
        GrowRight(InOrder(l), id, InOrder(pr), InOrder(r), InOrder(tn));
      }
  }

  /** A walk that grew by n on the left of id grows the whole walk by n. */
  lemma GrowLeft(a: seq<nat>, b: seq<nat>, n: seq<nat>, id: nat, c: seq<nat>)
    requires multiset(a) == multiset(b) + multiset(n)
    ensures multiset(a + [id] + c) == multiset(b + [id] + c) + multiset(n)
  {
  }

  /** A walk that grew by n on the right of id grows the whole walk by n. */
  lemma GrowRight(c: seq<nat>, id: nat, a: seq<nat>, b: seq<nat>, n: seq<nat>)
    requires multiset(a) == multiset(b) + multiset(n)
    ensures multiset(c + [id] + a) == multiset(c + [id] + b) + multiset(n)
  {
  }

  // ---------------------------------------------------------------------------------------------
  // bintree_set_parents

  /** The parent link of the root of c, if any, names id. */
  predicate ParentIs(P: seq<int>, c: Tree, id: nat)
  {
    c.Node? ==> c.id < |P| && P[c.id] == id
  }

  /** Every child's parent link names the node it hangs from. */
  predicate ParentsOK(P: seq<int>, t: Tree)
    requires Bounded(t, |P|)
  {
    match t
    case Nil => true
    case Node(l, id, r) =>
      && ParentIs(P, l, id) && ParentIs(P, r, id)
      && ParentsOK(P, l) && ParentsOK(P, r)
  }

  lemma {:induction false} ParentsFrame(P: seq<int>, P': seq<int>, t: Tree)
    requires Bounded(t, |P|) && |P'| == |P| && ParentsOK(P, t)
    requires forall x :: x in Ids(t) ==> P'[x] == P[x]
    ensures ParentsOK(P', t)
  {
    if t.Node? {
      ParentsFrame(P, P', t.left);
      ParentsFrame(P, P', t.right);
    }
  }

  /** The parent links after bintree_set_parents(node, par) on the tree t at node: node's own
    * link becomes par when par is given, then the subtrees are done with node as parent. */
  function Reparented(P: seq<int>, t: Tree, par: int): (P': seq<int>)
    requires Bounded(t, |P|)
    ensures |P'| == |P|
    decreases t
  {
    match t
    case Nil => P
    case Node(l, id, r) =>
      var P1 := if par != Null then P[id := par] else P;
      Reparented(Reparented(P1, l, id), r, id)
  }

  /** After bintree_set_parents every child points at its parent, the root's link is the given
    * parent or untouched, and links outside the tree are untouched. */
  lemma {:induction false} ReparentedCorrect(P: seq<int>, t: Tree, par: int)
    requires Bounded(t, |P|) && Distinct(t)
    ensures ParentsOK(Reparented(P, t, par), t)
    ensures t.Node? ==> Reparented(P, t, par)[t.id] == if par != Null then par else P[t.id]
    ensures forall x :: 0 <= x < |P| && x !in Ids(t) ==> Reparented(P, t, par)[x] == P[x]
    decreases t
  {
    if t.Node? {
      var l, id, r := t.left, t.id, t.right;
      var P1 := if par != Null then P[id := par] else P;
      ReparentedCorrect(P1, l, id);
      var P2 := Reparented(P1, l, id);
      ReparentedCorrect(P2, r, id);
      var P3 := Reparented(P2, r, id);
      ParentsFrame(P2, P3, l);
    }
  }

  /** After bintree_insert hangs a new leaf, every parent link is right exactly when the leaf's
    * link names the node it hangs from.  As written the leaf's link names the leaf itself, which
    * is never that node, so the links are wrong until bintree_set_parents runs. */
  lemma {:induction false} InsertedParent(V: seq<int>, P: seq<int>, t: Tree, node: nat, x: int)
    requires |V| == |P| && Bounded(t, |V|) && t.Node? && Distinct(t) && ParentsOK(P, t)
    requires node < |V| && node !in Ids(t)
    ensures var t' := Placed(V, t, Node(Nil, node, Nil), V[node]);
            && Bounded(t', |P|)
            && (ParentsOK(P[node := x], t') <==> x == Slot(V, t, V[node]).0)
    ensures !ParentsOK(P[node := node], Placed(V, t, Node(Nil, node, Nil), V[node]))
  {
    var leaf := Node(Nil, node, Nil);
    var v := V[node];
    var P' := P[node := x];
    var l, id, r := t.left, t.id, t.right;
    if v < V[id] {
      ParentsFrame(P, P', r);
      if l == Nil {
        assert ParentsOK(P', leaf);
      } else {
        InsertedParent(V, P, l, node, x);
        assert Placed(V, l, leaf, v).id == l.id;
      }
    } else {
      ParentsFrame(P, P', l);
      if r == Nil {
        assert ParentsOK(P', leaf);
      } else {
        InsertedParent(V, P, r, node, x);
        assert Placed(V, r, leaf, v).id == r.id;
      }
    }
    assert Slot(V, t, v).0 in Ids(t);
    if x == node {
      assert !ParentsOK(P', Placed(V, t, leaf, v));
    }
  }

  // ---------------------------------------------------------------------------------------------
  // avltree_calc_balances

  /** The height contributed through the link to t: none for a null link, one more than t's. */
  function Sub(t: Tree): nat
    decreases t, 1
  {
    match t
    case Nil => 0
    case Node(_, _, _) => Height(t) + 1
  }

  /** The height of a tree, counted in links, as _get_height returns it. */
  function Height(t: Tree): nat
    decreases t, 0
  {
    match t
    case Nil => 0
    case Node(l, _, r) => if Sub(l) >= Sub(r) then Sub(l) else Sub(r)
  }

  /** The balance fields after _get_height on t: the subtrees first, then the node's own. */
  function Rebalanced(B: seq<int>, t: Tree): (B': seq<int>)
    requires Bounded(t, |B|)
    ensures |B'| == |B|
    decreases t
  {
    match t
    case Nil => B
    case Node(l, id, r) => Rebalanced(Rebalanced(B, l), r)[id := Sub(r) - Sub(l)]
  }

  /** Every node's balance is the height on its right minus the height on its left. */
  predicate BalancesOK(B: seq<int>, t: Tree)
    requires Bounded(t, |B|)
  {
    match t
    case Nil => true
    case Node(l, id, r) => B[id] == Sub(r) - Sub(l) && BalancesOK(B, l) && BalancesOK(B, r)
  }

  lemma {:induction false} BalancesFrame(B: seq<int>, B': seq<int>, t: Tree)
    requires Bounded(t, |B|) && |B'| == |B| && BalancesOK(B, t)
    requires forall x :: x in Ids(t) ==> B'[x] == B[x]
    ensures BalancesOK(B', t)
  {
    if t.Node? {
      BalancesFrame(B, B', t.left);
      BalancesFrame(B, B', t.right);
    }
  }

  /** avltree_calc_balances sets the balance of every node of the tree and no other. */
  lemma {:induction false} RebalancedCorrect(B: seq<int>, t: Tree)
    requires Bounded(t, |B|) && Distinct(t)
    ensures BalancesOK(Rebalanced(B, t), t)
    ensures forall x :: 0 <= x < |B| && x !in Ids(t) ==> Rebalanced(B, t)[x] == B[x]
    decreases t
  {
    if t.Node? {
      var l, id, r := t.left, t.id, t.right;
      RebalancedCorrect(B, l);
      var B1 := Rebalanced(B, l);
      RebalancedCorrect(B1, r);
      var B2 := Rebalanced(B1, r);
      BalancesFrame(B1, B2, l);
      BalancesFrame(B2, B2[id := Sub(r) - Sub(l)], l);
      BalancesFrame(B2, B2[id := Sub(r) - Sub(l)], r);
    }
  }

  /** Worked example of Rebalanced on the smallest trees: a leaf has balance 0, and a node whose
    * only child is a leaf has balance -1 or 1. */
  lemma LeafBalances(B: seq<int>, a: nat, b: nat)
    requires a < |B| && b < |B| && a != b
    ensures Rebalanced(B, Node(Nil, a, Nil))[a] == 0
    ensures Rebalanced(B, Node(Node(Nil, b, Nil), a, Nil))[a] == -1
    ensures Rebalanced(B, Node(Nil, a, Node(Nil, b, Nil)))[a] == 1
  {
    assert Sub(Node(Nil, b, Nil)) == 1 by {
      assert Height(Node(Nil, b, Nil)) == 0;
    }
  }

  // ---------------------------------------------------------------------------------------------
  // The node pool

  class NodePool {
    var value: seq<int>
    var left: seq<int>
    var right: seq<int>
    var parent: seq<int>
    var balance: seq<int>

    predicate Valid()
      reads this
    {
      |left| == |value| && |right| == |value| && |parent| == |value| && |balance| == |value|
    }

    constructor()
      ensures Valid() && value == []
    {
      value, left, right, parent, balance := [], [], [], [], [];
    }

    /** avl_node::create: a new node with the value, null links and balance 0. */
    method Create(val: int) returns (id: nat)
      requires Valid()
      modifies this
      ensures Valid() && id == |old(value)|
      ensures value == old(value) + [val] && left == old(left) + [Null] && right == old(right) + [Null]
      ensures parent == old(parent) + [Null] && balance == old(balance) + [0]
    {
      id := |value|;
      value := value + [val];
      left := left + [Null];
      right := right + [Null];
      parent := parent + [Null];
      balance := balance + [0];
    }

    /** bintree_insert: descend from root, left for a value smaller than the node's and right
      * otherwise, and hang node on the first null link.  As written, the new node's parent link
      * is set to the link just written, i.e. to the node itself; `fixed` sets it to the node it
      * hangs from instead. */
    method Insert(root: nat, node: nat, ghost t: Tree, fixed: bool)
      requires Valid() && ShapeIn(left, right, t, root) && node < |value|
      modifies this
      ensures Valid() && value == old(value) && balance == old(balance)
      ensures var s := Slot(old(value), t, old(value)[node]);
              && left == (if s.1 then old(left)[s.0 := node] else old(left))
              && right == (if s.1 then old(right) else old(right)[s.0 := node])
              && parent == old(parent)[node := if fixed then s.0 else node]
      decreases t
    {
      if value[node] < value[root] {
        if left[root] == Null {
          left := left[root := node];
          parent := parent[node := if fixed then root else left[root]];
        } else {
          Insert(left[root], node, t.left, fixed);
        }
      } else {
        if right[root] == Null {
          right := right[root := node];
          parent := parent[node := if fixed then root else right[root]];
        } else {
          Insert(right[root], node, t.right, fixed);
        }
      }
    }

    /** bintree_set_parents: give node the parent par when one is given, then recurse into the
      * children with node as their parent. */
    method SetParents(node: nat, par: int, ghost t: Tree)
      requires Valid() && ShapeIn(left, right, t, node)
      modifies this
      ensures Valid() && value == old(value) && left == old(left) && right == old(right) && balance == old(balance)
      ensures parent == Reparented(old(parent), t, par)
      decreases t
    {
      if par != Null {
        parent := parent[node := par];
      }
      if left[node] != Null {
        SetParents(left[node], node, t.left);
      }
      if right[node] != Null {
        SetParents(right[node], node, t.right);
      }
    }

    /** bintree_for_each: the nodes func is called on, in the order of the calls. */
    method ForEach(root: nat, ghost t: Tree) returns (visited: seq<nat>)
      requires Valid() && ShapeIn(left, right, t, root)
      ensures visited == InOrder(t)
      decreases t
    {
      visited := [];
      if left[root] != Null {
        visited := ForEach(left[root], t.left);
      }
      visited := visited + [root];
      if right[root] != Null {
        var rest := ForEach(right[root], t.right);
        visited := visited + rest;
      }
    }

    /** The _get_height helper of avltree_calc_balances: the heights through both links, the
      * node's balance set to their difference, and the larger returned. */
    method GetHeight(node: nat, ghost t: Tree) returns (height: nat)
      requires Valid() && ShapeIn(left, right, t, node)
      modifies this
      ensures Valid() && value == old(value) && left == old(left) && right == old(right) && parent == old(parent)
      ensures balance == Rebalanced(old(balance), t)
      ensures height == Height(t)
      decreases t
    {
      var heightLeft: int := 0;
      if left[node] != Null {
        var h := GetHeight(left[node], t.left);
        heightLeft := h + 1;
      }
      var heightRight: int := 0;
      if right[node] != Null {
        var h := GetHeight(right[node], t.right);
        heightRight := h + 1;
      }
      height := if heightLeft >= heightRight then heightLeft else heightRight;
      balance := balance[node := heightRight - heightLeft];
    }

    /** avltree_calc_balances: set every balance of the tree at node. */
    method CalcBalances(node: nat, ghost t: Tree)
      requires Valid() && ShapeIn(left, right, t, node)
      modifies this
      ensures Valid() && value == old(value) && left == old(left) && right == old(right) && parent == old(parent)
      ensures balance == Rebalanced(old(balance), t)
    {
      var _ := GetHeight(node, t);
    }
  }
}
