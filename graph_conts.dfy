/**
 * The adjacency-matrix graph container (libs/graph_conts.h): a list of vertex
 * identifiers and a square weight matrix.  A zero weight means "no edge".
 * Weights are the container's default `unsigned int`, modelled as `nat`.
 */
module GraphConts {
  import opened Wrappers

  type Weight = nat

  /** `m` is an n-by-n matrix. */
  predicate Square(m: seq<seq<Weight>>, n: nat)
  {
    |m| == n && forall i :: 0 <= i < n ==> |m[i]| == n
  }

  /** First position of `id` in `ids`, as std::find reports it. */
  function IndexOf(ids: seq<string>, id: string): (r: Option<nat>)
    ensures r.None? <==> id !in ids
    ensures r.Some? ==> r.value < |ids| && ids[r.value] == id
    ensures r.Some? ==> forall k :: 0 <= k < r.value ==> ids[k] != id
  {
    if |ids| == 0 then None
    else if ids[0] == id then Some(0)
    else match IndexOf(ids[1..], id)
      case None => None
      case Some(k) => Some(k + 1)
  }

  /** The matrix grown by one zero row and one zero column. */
  function Grown(m: seq<seq<Weight>>, n: nat): (r: seq<seq<Weight>>)
    requires Square(m, n)
    ensures Square(r, n + 1)
    ensures forall i, j :: 0 <= i < n && 0 <= j < n ==> r[i][j] == m[i][j]
    ensures forall k :: 0 <= k <= n ==> r[n][k] == 0 && r[k][n] == 0
  {
    seq(n + 1, i requires 0 <= i <= n => seq(n + 1, j requires 0 <= j <= n =>
      if i < n && j < n then m[i][j] else 0))
  }

  /** GetWeight on values: the zero weight unless both identifiers are known. */
  function WeightOf(ids: seq<string>, m: seq<seq<Weight>>, v1: string, v2: string): (w: Weight)
    requires Square(m, |m|) && |ids| <= |m|
    ensures v1 !in ids || v2 !in ids ==> w == 0
  {
    match (IndexOf(ids, v1), IndexOf(ids, v2))
      case (Some(i), Some(j)) => m[i][j]
      case _ => 0
  }

  /** SetWeight on values: entry (idx1, idx2) becomes w, or nothing changes for an unknown id. */
  function WithWeight(ids: seq<string>, m: seq<seq<Weight>>, v1: string, v2: string, w: Weight): (r: seq<seq<Weight>>)
    requires Square(m, |m|) && |ids| <= |m|
    ensures Square(r, |m|)
    ensures v1 !in ids || v2 !in ids ==> r == m
    ensures v1 in ids && v2 in ids ==>
      forall i, j :: 0 <= i < |m| && 0 <= j < |m| ==>
        r[i][j] == (if Some(i) == IndexOf(ids, v1) && Some(j) == IndexOf(ids, v2) then w else m[i][j])
  {
    match (IndexOf(ids, v1), IndexOf(ids, v2))
      case (Some(i), Some(j)) =>
        var row: seq<Weight> := m[i][j := w];
        m[i := row]
      case _ => m
  }

  /** The identifiers of the columns j with a non-zero weight in `row`, from column `j` on;
    * None when such a column has no identifier (a read past the identifier list). */
  function NeighboursFrom(ids: seq<string>, row: seq<Weight>, j: nat): (r: Option<seq<string>>)
    requires j <= |row|
    ensures |ids| >= |row| ==> r.Some?
    ensures r.Some? ==> forall x :: x in r.value <==>
      exists k :: j <= k < |row| && k < |ids| && row[k] != 0 && ids[k] == x
    decreases |row| - j
  {
    if j == |row| then Some([])
    else
      var rest := NeighboursFrom(ids, row, j + 1);
      if row[j] == 0 then rest
      else if j >= |ids| || rest.None? then None
      else Some([ids[j]] + rest.value)
  }

  /** GetNeighbours on values. */
  function NeighboursOf(ids: seq<string>, m: seq<seq<Weight>>, v: string): (r: Option<seq<string>>)
    requires Square(m, |m|) && |ids| <= |m|
    ensures v !in ids ==> r == Some([])
  {
    match IndexOf(ids, v)
      case None => Some([])
      case Some(i) => NeighboursFrom(ids, m[i], 0)
  }

  class AdjacencyMatrix {
    var idents: seq<string>
    var mat: seq<seq<Weight>>

    /** The matrix stays square; RemoveVertex may leave it larger than the identifier list. */
    ghost predicate Valid()
      reads this
    {
      Square(mat, |mat|) && |idents| <= |mat|
    }

    constructor()
      ensures Valid() && idents == [] && mat == []
    {
      idents := [];
      mat := [];
    }

    /** The std::find loop over the identifier list. */
    method Find(id: string) returns (r: Option<nat>)
      requires Valid()
      ensures r == IndexOf(idents, id)
    {
      var i := 0;
      while i < |idents|
        invariant 0 <= i <= |idents|
        invariant id !in idents[..i]
      {
        if idents[i] == id {
          IndexOfHit(idents, id, i);
          return Some(i);
        }
        i := i + 1;
      }
      assert idents[..i] == idents;
      return None;
    }

    method AddVertex(id: string)
      requires Valid()
      modifies this
      ensures Valid()
      ensures idents == old(idents) + [id]
      ensures mat == Grown(old(mat), |old(mat)|)
    {
      var n := |mat|;
      var matNew: seq<seq<Weight>> := [];
      var i := 0;
      while i < n
        invariant 0 <= i <= n
        invariant |matNew| == i
        invariant forall r :: 0 <= r < i ==> matNew[r] == mat[r] + [0]
      {
        matNew := matNew + [mat[i] + [0]];
        i := i + 1;
      }
      matNew := matNew + [seq(n + 1, _ => 0)];
      forall r | 0 <= r <= n
        ensures matNew[r] == Grown(mat, n)[r]
      {
        assert |matNew[r]| == n + 1;
      }
      assert matNew == Grown(mat, n);
      mat := matNew;
      idents := idents + [id];
    }

    /** Removes the first occurrence of the identifier only; the matrix keeps its size. */
    method RemoveVertex(id: string)
      requires Valid()
      modifies this
      ensures Valid()
      ensures mat == old(mat)
      ensures idents == match IndexOf(old(idents), id)
        case None => old(idents)
        case Some(k) => old(idents)[..k] + old(idents)[k + 1..]
    {
      var r := Find(id);
      if r.None? {
        return;
      }
      idents := idents[..r.value] + idents[r.value + 1..];
    }

    method SetWeight(v1: string, v2: string, w: Weight)
      requires Valid()
      modifies this
      ensures Valid() && idents == old(idents)
      ensures mat == WithWeight(old(idents), old(mat), v1, v2, w)
    {
      var r1 := Find(v1);
      if r1.None? {
        return;
      }
      var r2 := Find(v2);
      if r2.None? {
        return;
      }
      var row: seq<Weight> := mat[r1.value][r2.value := w];
      mat := mat[r1.value := row];
    }

    method GetWeight(v1: string, v2: string) returns (w: Weight)
      requires Valid()
      ensures w == WeightOf(idents, mat, v1, v2)
    {
      var r1 := Find(v1);
      if r1.None? {
        return 0;
      }
      var r2 := Find(v2);
      if r2.None? {
        return 0;
      }
      w := mat[r1.value][r2.value];
    }

    method AddEdge(v1: string, v2: string, w: Weight)
      requires Valid()
      modifies this
      ensures Valid() && idents == old(idents)
      ensures mat == WithWeight(old(idents), old(mat), v1, v2, w)
    {
      SetWeight(v1, v2, w);
    }

    method RemoveEdge(v1: string, v2: string)
      requires Valid()
      modifies this
      ensures Valid() && idents == old(idents)
      ensures mat == WithWeight(old(idents), old(mat), v1, v2, 0)
    {
      SetWeight(v1, v2, 0);
    }

    method IsAdjacent(v1: string, v2: string) returns (b: bool)
      requires Valid()
      ensures b <==> WeightOf(idents, mat, v1, v2) != 0
    {
      var w := GetWeight(v1, v2);
      b := w != 0;
    }

    /** Scans the vertex's matrix row; None stands for the read past the identifier
      * list that happens once RemoveVertex has shortened it. */
    method GetNeighbours(v: string) returns (r: Option<seq<string>>)
      requires Valid()
      ensures r == NeighboursOf(idents, mat, v)
    {
      var f := Find(v);
      if f.None? {
        return Some([]);
      }
      var idx := f.value;
      assert NeighboursFrom(idents, mat[idx], 0).Some? ==>
        [] + NeighboursFrom(idents, mat[idx], 0).value == NeighboursFrom(idents, mat[idx], 0).value;
      var neighbours: seq<string> := [];
      var other := 0;
      while other < |mat|
        invariant 0 <= other <= |mat|
        invariant NeighboursFrom(idents, mat[idx], 0) ==
          Prepend(neighbours, NeighboursFrom(idents, mat[idx], other))
      {
        ghost var rest := NeighboursFrom(idents, mat[idx], other + 1);
        if mat[idx][other] != 0 {
          if other >= |idents| {
            NeighboursFromNone(idents, mat[idx], other);
            return None;
          }
          assert rest.Some? ==> neighbours + ([idents[other]] + rest.value) == (neighbours + [idents[other]]) + rest.value;
          neighbours := neighbours + [idents[other]];
        }
        other := other + 1;
      }
      assert neighbours + [] == neighbours;
      r := Some(neighbours);
    }
  }

  /** `p` in front of an optional list. */
  function Prepend(p: seq<string>, o: Option<seq<string>>): Option<seq<string>>
  {
    if o.None? then None else Some(p + o.value)
  }

  /** Identifiers are unique. */
  predicate Distinct(ids: seq<string>)
  {
    forall i, j :: 0 <= i < j < |ids| ==> ids[i] != ids[j]
  }

  /** After SetWeight(a, b, w) on known identifiers, GetWeight(a, b) is w and every
    * other entry reads as before. */
  lemma GetAfterSet(ids: seq<string>, m: seq<seq<Weight>>, a: string, b: string, w: Weight, c: string, d: string)
    requires Square(m, |m|) && |ids| <= |m|
    ensures a in ids && b in ids ==> WeightOf(ids, WithWeight(ids, m, a, b, w), a, b) == w
    ensures IndexOf(ids, c) != IndexOf(ids, a) || IndexOf(ids, d) != IndexOf(ids, b) ==>
      WeightOf(ids, WithWeight(ids, m, a, b, w), c, d) == WeightOf(ids, m, c, d)
  {
  }

  /** RemoveEdge makes IsAdjacent false, whether or not the identifiers are known. */
  lemma RemoveEdgeNotAdjacent(ids: seq<string>, m: seq<seq<Weight>>, a: string, b: string)
    requires Square(m, |m|) && |ids| <= |m|
    ensures WeightOf(ids, WithWeight(ids, m, a, b, 0), a, b) == 0
  {
  }

  lemma {:induction false} IndexOfAppend(ids: seq<string>, id: string, a: string)
    ensures IndexOf(ids + [id], a) == if a in ids then IndexOf(ids, a) else if a == id then Some(|ids|) else None
  {
    if |ids| > 0 {
      assert (ids + [id])[1..] == ids[1..] + [id];
      IndexOfAppend(ids[1..], id, a);
    }
  }

  /** AddVertex keeps every weight between known vertices, and a new identifier
    * starts out with no edges. */
  lemma AddVertexKeepsWeights(ids: seq<string>, m: seq<seq<Weight>>, id: string, a: string, b: string)
    requires Square(m, |m|) && |ids| <= |m|
    ensures a in ids && b in ids ==> WeightOf(ids + [id], Grown(m, |m|), a, b) == WeightOf(ids, m, a, b)
    ensures |ids| == |m| && id !in ids && (a == id || b == id) ==> WeightOf(ids + [id], Grown(m, |m|), a, b) == 0
  {
    IndexOfAppend(ids, id, a);
    IndexOfAppend(ids, id, b);
  }

  lemma {:induction false} NeighboursFromDistinct(ids: seq<string>, row: seq<Weight>, j: nat, x: string)
    requires j <= |row| == |ids| && Distinct(ids)
    ensures x in NeighboursFrom(ids, row, j).value <==>
      exists k :: j <= k < |row| && ids[k] == x && row[k] != 0
  {
  }

  /** With as many identifiers as matrix columns and no identifier twice, x is
    * returned by GetNeighbours(v) exactly when IsAdjacent(v, x). */
  lemma NeighboursAreAdjacent(ids: seq<string>, m: seq<seq<Weight>>, v: string, x: string)
    requires Square(m, |m|) && |ids| == |m| && Distinct(ids) && v in ids
    ensures NeighboursOf(ids, m, v).Some?
    ensures x in NeighboursOf(ids, m, v).value <==> WeightOf(ids, m, v, x) != 0
  {
    var i := IndexOf(ids, v).value;
    if x in NeighboursOf(ids, m, v).value {
      var k :| 0 <= k < |m| && k < |ids| && m[i][k] != 0 && ids[k] == x;
      assert IndexOf(ids, x) == Some(k);
    }
    if WeightOf(ids, m, v, x) != 0 {
      var k := IndexOf(ids, x).value;
      assert m[i][k] != 0;
    }
  }

  /** RemoveVertex as written: removing "A" from [A, B] makes B inherit A's matrix row
    * and column, so a self-loop A -> A reappears as B -> B. */
  lemma RemoveVertexRevivesEdge()
    ensures WeightOf(["A", "B"], [[7, 0], [0, 0]], "B", "B") == 0
    ensures WeightOf(["B"], [[7, 0], [0, 0]], "B", "B") == 7
  {
    assert IndexOf(["A", "B"], "B") == Some(1);
    assert IndexOf(["B"], "B") == Some(0);
  }

  /** Position i of the matrix after deleting index k. */
  function Skip(i: nat, k: nat): nat
  {
    if i < k then i else i + 1
  }

  /** RemoveVertex as intended: the identifier, its matrix row and its column go. */
  function WithoutVertex(ids: seq<string>, m: seq<seq<Weight>>, id: string): (r: (seq<string>, seq<seq<Weight>>))
    requires Square(m, |m|) && |ids| <= |m|
    ensures Square(r.1, |r.1|) && |r.0| <= |r.1|
    ensures id in ids ==> |r.0| == |ids| - 1 && |r.1| == |m| - 1
    ensures id !in ids ==> r == (ids, m)
  {
    match IndexOf(ids, id)
      case None => (ids, m)
      case Some(k) =>
        (ids[..k] + ids[k + 1..],
         seq(|m| - 1, i requires 0 <= i < |m| - 1 => seq(|m| - 1, j requires 0 <= j < |m| - 1 => m[Skip(i, k)][Skip(j, k)])))
  }

  lemma {:induction false} IndexOfRemoved(ids: seq<string>, k: nat, rest: seq<string>, a: string)
    requires k < |ids| && ids[k] != a && IndexOf(ids, ids[k]) == Some(k)
    requires rest == ids[..k] + ids[k + 1..]
    ensures IndexOf(ids, a).None? ==> IndexOf(rest, a).None?
    ensures IndexOf(ids, a).Some? ==> IndexOf(ids, a).value != k && IndexOf(rest, a) == Some(Unskip(IndexOf(ids, a).value, k))
  {
    match IndexOf(ids, a)
    case None =>
      assert forall x :: x in rest ==> x in ids;
    case Some(j) =>
      var j' := if j < k then j else j - 1;
      assert rest[j'] == a;
      forall t | 0 <= t < j'
        ensures rest[t] != a
      {
        assert rest[t] == ids[Skip(t, k)];
      }
      IndexOfHit(rest, a, j');
  }

  lemma WithoutVertexKeepsWeights(ids: seq<string>, m: seq<seq<Weight>>, id: string, a: string, b: string)
    requires Square(m, |m|) && |ids| <= |m|
    requires a != id && b != id
    ensures WeightOf(WithoutVertex(ids, m, id).0, WithoutVertex(ids, m, id).1, a, b) == WeightOf(ids, m, a, b)
  {
    match IndexOf(ids, id)
    case None =>
    case Some(k) =>
      var (ids', m') := WithoutVertex(ids, m, id);
      assert ids' == ids[..k] + ids[k + 1..];
      assert forall i, j :: 0 <= i < |m| - 1 && 0 <= j < |m| - 1 ==> m'[i][j] == m[Skip(i, k)][Skip(j, k)];
      IndexOfRemoved(ids, k, ids', a);
      IndexOfRemoved(ids, k, ids', b);
      RemovedKeepsWeights(ids, m, k, ids', m', a, b);
  }

  /** The position of a remaining identifier once position k is gone. */
  function Unskip(i: nat, k: nat): nat
    requires i != k
  {
    if i < k then i else i - 1
  }

  /** With row and column k gone and the remaining identifiers shifted down past k, the weight
    * between two identifiers other than the k-th is unchanged. */
  lemma RemovedKeepsWeights(ids: seq<string>, m: seq<seq<Weight>>, k: nat, ids': seq<string>, m': seq<seq<Weight>>,
                            a: string, b: string)
    requires Square(m, |m|) && |ids| <= |m| && k < |ids| && Square(m', |m| - 1) && |ids'| <= |m'|
    requires forall i, j :: 0 <= i < |m| - 1 && 0 <= j < |m| - 1 ==> m'[i][j] == m[Skip(i, k)][Skip(j, k)]
    requires IndexOf(ids, a).None? ==> IndexOf(ids', a).None?
    requires IndexOf(ids, a).Some? ==> IndexOf(ids, a).value != k && IndexOf(ids', a) == Some(Unskip(IndexOf(ids, a).value, k))
    requires IndexOf(ids, b).None? ==> IndexOf(ids', b).None?
    requires IndexOf(ids, b).Some? ==> IndexOf(ids, b).value != k && IndexOf(ids', b) == Some(Unskip(IndexOf(ids, b).value, k))
    ensures WeightOf(ids', m', a, b) == WeightOf(ids, m, a, b)
  {
    var oa, ob := IndexOf(ids, a), IndexOf(ids, b);
    if oa.Some? && ob.Some? {
      var i, j := oa.value, ob.value;
      assert Skip(Unskip(i, k), k) == i && Skip(Unskip(j, k), k) == j;
      WeightOfFound(ids, m, a, b, i, j);
      WeightOfFound(ids', m', a, b, Unskip(i, k), Unskip(j, k));
    } else {
      WeightOfMissing(ids, m, a, b);
      WeightOfMissing(ids', m', a, b);
    }
  }

  lemma WeightOfFound(ids: seq<string>, m: seq<seq<Weight>>, a: string, b: string, i: nat, j: nat)
    requires Square(m, |m|) && |ids| <= |m|
    requires IndexOf(ids, a) == Some(i) && IndexOf(ids, b) == Some(j)
    ensures WeightOf(ids, m, a, b) == m[i][j]
  {
  }

  lemma WeightOfMissing(ids: seq<string>, m: seq<seq<Weight>>, a: string, b: string)
    requires Square(m, |m|) && |ids| <= |m|
    requires IndexOf(ids, a).None? || IndexOf(ids, b).None?
    ensures WeightOf(ids, m, a, b) == 0
  {
  }

  lemma IndexOfHit(ids: seq<string>, id: string, i: nat)
    requires i < |ids| && ids[i] == id && id !in ids[..i]
    ensures IndexOf(ids, id) == Some(i)
  {
    assert id in ids;
  }

  lemma NeighboursFromNone(ids: seq<string>, row: seq<Weight>, j: nat)
    requires j < |row| && row[j] != 0 && j >= |ids|
    ensures NeighboursFrom(ids, row, j) == None
  {
  }
}
