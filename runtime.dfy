/**
 * The matrix part of the runtime library of the array-language compiler
 * (parser/6-arrays/runtime.cpp).  Matrices are flat row-major buffers: the element in row r and
 * column c of a matrix w columns wide is at r * w + c.  The externals write their results into
 * caller-provided buffers in nested loops, so they are methods on arrays, each proved against a
 * function on the contents; the values are integers (the library works on doubles).
 */
module Runtime {
  import opened Wrappers

  // ---------------------------------------------------------------------------------------------
  // Row-major indices

  /** a * b, by repeated addition (keeps the index arithmetic linear for the solver). */
  function Mul(a: nat, b: nat): nat
  {
    if a == 0 then 0 else Mul(a - 1, b) + b
  }

  lemma {:induction false} MulMono(a: nat, a2: nat, b: nat)
    requires a <= a2
    ensures Mul(a, b) <= Mul(a2, b)
    decreases a2
  {
    if a < a2 {
      MulMono(a, a2 - 1, b);
    }
  }

  /** Mul is the product. */
  lemma {:induction false} MulIsProduct(a: nat, b: nat)
    ensures Mul(a, b) == a * b
  {
    if a > 0 {
      MulIsProduct(a - 1, b);
    }
  }

  /** The flat index of row r, column c in an h by w matrix; it lies within the matrix. */
  function Idx(r: nat, c: nat, w: nat, h: nat): (k: nat)
    requires r < h && c < w
    ensures k < Mul(h, w)
  {
    MulMono(r + 1, h, w);
    Mul(r, w) + c
  }

  /** An element of an earlier row comes before every element of a later row. */
  lemma IdxBelowRow(r: nat, c: nat, r2: nat, c2: nat, w: nat, h: nat)
    requires r < r2 < h && c < w && c2 < w
    ensures Idx(r, c, w, h) < Idx(r2, c2, w, h)
  {
    MulMono(r + 1, r2, w);
  }

  /** Distinct positions have distinct indices. */
  lemma IdxInjective(r: nat, c: nat, r2: nat, c2: nat, w: nat, h: nat)
    requires r < h && c < w && r2 < h && c2 < w && (r, c) != (r2, c2)
    ensures Idx(r, c, w, h) != Idx(r2, c2, w, h)
  {
    if r < r2 {
      IdxBelowRow(r, c, r2, c2, w, h);
    } else if r2 < r {
      IdxBelowRow(r2, c2, r, c, w, h);
    }
  }

  /** Every index of an h by w matrix is the index of a row and a column. */
  lemma {:induction false} IdxSplit(k: nat, w: nat, h: nat) returns (r: nat, c: nat)
    requires k < Mul(h, w)
    ensures r < h && c < w && k == Idx(r, c, w, h)
    decreases h
  {
    if k < Mul(h - 1, w) {
      r, c := IdxSplit(k, w, h - 1);
    } else {
      r, c := h - 1, k - Mul(h - 1, w);
    }
  }

  /** The h by w matrix whose element in row r, column c is f(r, c), built row by row. */
  function Grid(h: nat, w: nat, f: (nat, nat) -> int): (s: seq<int>)
    ensures |s| == Mul(h, w)
    ensures forall r: nat, c: nat :: r < h && c < w ==> s[Idx(r, c, w, h)] == f(r, c)
  {
    if h == 0 then []
    else
      var p := Grid(h - 1, w, f);
      var s := p + seq(w, c requires 0 <= c < w => f(h - 1, c));
      assert forall r: nat, c: nat :: r < h && c < w ==> s[Idx(r, c, w, h)] == f(r, c) by {
        forall r: nat, c: nat | r < h && c < w
          ensures s[Idx(r, c, w, h)] == f(r, c)
        {
          if r < h - 1 {
            assert Idx(r, c, w, h) == Idx(r, c, w, h - 1);
          }
        }
      }
      s
  }

  /** A buffer that agrees with a grid element by element is the grid. */
  lemma GridEqual(s: seq<int>, h: nat, w: nat, f: (nat, nat) -> int)
    requires |s| == Mul(h, w)
    requires forall r: nat, c: nat :: r < h && c < w ==> s[Idx(r, c, w, h)] == f(r, c)
    ensures s == Grid(h, w, f)
  {
    var g := Grid(h, w, f);
    forall k | 0 <= k < |s|
      ensures s[k] == g[k]
    {
      var r, c := IdxSplit(k, w, h);
    }
  }

  /** Copy an n by n matrix, row by row (the copy loops of ext_power). */
  method CopyMat(src: array<int>, dst: array<int>, N: nat)
    requires src != dst && src.Length == Mul(N, N) && dst.Length == Mul(N, N)
    modifies dst
    ensures dst[..] == src[..]
  {
    var i := 0;
    while i < N
      invariant i <= N
      invariant forall r: nat, c: nat :: r < i && c < N ==> dst[Idx(r, c, N, N)] == src[Idx(r, c, N, N)]
    {
      var j := 0;
      while j < N
        invariant j <= N
        invariant forall r: nat, c: nat :: r < i && c < N ==> dst[Idx(r, c, N, N)] == src[Idx(r, c, N, N)]
        invariant forall c: nat :: c < j ==> dst[Idx(i, c, N, N)] == src[Idx(i, c, N, N)]
      {
        dst[Idx(i, j, N, N)] := src[Idx(i, j, N, N)];
        forall r: nat, c: nat | r < i && c < N
          ensures Idx(r, c, N, N) != Idx(i, j, N, N)
        {
          IdxBelowRow(r, c, i, j, N, N);
        }
        j := j + 1;
      }
      i := i + 1;
    }
    forall k | 0 <= k < dst.Length
      ensures dst[k] == src[k]
    {
      var r, c := IdxSplit(k, N, N);
    }
  }

  // ---------------------------------------------------------------------------------------------
  // ext_submat

  /** The row or column of the smaller matrix at k, with the one at removed taken out. */
  function Skip(k: nat, removed: nat): nat
  {
    if k < removed then k else k + 1
  }

  /** The N - 1 by N - 1 matrix of m without row i and column j. */
  function SubmatOf(m: seq<int>, N: nat, i: nat, j: nat): (s: seq<int>)
    requires |m| == Mul(N, N) && i < N && j < N
    ensures |s| == Mul(N - 1, N - 1)
    ensures forall r: nat, c: nat :: r < N - 1 && c < N - 1 ==>
              s[Idx(r, c, N - 1, N - 1)] == m[Idx(Skip(r, i), Skip(c, j), N, N)]
  {
    Grid(N - 1, N - 1, (r: nat, c: nat) =>
      if r < N - 1 && c < N - 1 then m[Idx(Skip(r, i), Skip(c, j), N, N)] else 0)
  }

  /** ext_submat: copy M without row iremove and column jremove into M_new, row by row. */
  method Submat(M: array<int>, N: nat, Mnew: array<int>, iremove: nat, jremove: nat)
    requires iremove < N && jremove < N
    requires M != Mnew && M.Length == Mul(N, N) && Mnew.Length == Mul(N - 1, N - 1)
    modifies Mnew
    ensures Mnew[..] == SubmatOf(M[..], N, iremove, jremove)
  {
    var w := N - 1;
    var rowNew := 0;
    var row := 0;
    while row < N
      invariant row <= N && rowNew == if row > iremove then row - 1 else row
      invariant forall r: nat, c: nat :: r < rowNew && c < w ==>
                  Mnew[Idx(r, c, w, w)] == M[Idx(Skip(r, iremove), Skip(c, jremove), N, N)]
    {
      if row == iremove {
        row := row + 1;
        continue;
      }
      var colNew := 0;
      var col := 0;
      while col < N
        invariant col <= N && colNew == if col > jremove then col - 1 else col
        invariant rowNew < w && Skip(rowNew, iremove) == row
        invariant forall r: nat, c: nat :: r < rowNew && c < w ==>
                    Mnew[Idx(r, c, w, w)] == M[Idx(Skip(r, iremove), Skip(c, jremove), N, N)]
        invariant forall c: nat :: c < colNew ==> Mnew[Idx(rowNew, c, w, w)] == M[Idx(row, Skip(c, jremove), N, N)]
      {
        if col == jremove {
          col := col + 1;
          continue;
        }
        Mnew[Idx(rowNew, colNew, w, w)] := M[Idx(row, col, N, N)];
        forall r: nat, c: nat | r < rowNew && c < w
          ensures Idx(r, c, w, w) != Idx(rowNew, colNew, w, w)
        {
          IdxBelowRow(r, c, rowNew, colNew, w, w);
        }
        colNew := colNew + 1;
        col := col + 1;
      }
      rowNew := rowNew + 1;
      row := row + 1;
    }
    SubmatEqual(Mnew[..], M[..], N, iremove, jremove);
  }

  lemma SubmatEqual(s: seq<int>, m: seq<int>, N: nat, i: nat, j: nat)
    requires |m| == Mul(N, N) && i < N && j < N && |s| == Mul(N - 1, N - 1)
    requires forall r: nat, c: nat :: r < N - 1 && c < N - 1 ==>
               s[Idx(r, c, N - 1, N - 1)] == m[Idx(Skip(r, i), Skip(c, j), N, N)]
    ensures s == SubmatOf(m, N, i, j)
  {
    var t := SubmatOf(m, N, i, j);
    forall k | 0 <= k < |s|
      ensures s[k] == t[k]
    {
      var r, c := IdxSplit(k, N - 1, N - 1);
      assert s[k] == m[Idx(Skip(r, i), Skip(c, j), N, N)] == t[k];
    }
  }

  // ---------------------------------------------------------------------------------------------
  // ext_determinant

  /** The number of zeros among the first n elements of row r. */
  function ZerosIn(m: seq<int>, N: nat, r: nat, n: nat): (z: nat)
    requires |m| == Mul(N, N) && r < N && n <= N
    ensures z <= n
  {
    if n == 0 then 0
    else ZerosIn(m, N, r, n - 1) + (if m[Idx(r, n - 1, N, N)] == 0 then 1 else 0)
  }

  /** A row whose elements are all zero has as many zeros as columns, and only such a row. */
  lemma {:induction false} ZerosInAll(m: seq<int>, N: nat, r: nat, n: nat)
    requires |m| == Mul(N, N) && r < N && n <= N
    ensures ZerosIn(m, N, r, n) == n <==> forall c: nat :: c < n ==> m[Idx(r, c, N, N)] == 0
  {
    if n > 0 {
      ZerosInAll(m, N, r, n - 1);
    }
  }

  /** The row search of ext_determinant from row cur on, having found row with maxZeros zeros:
    * a later row replaces it only when it has strictly more zeros. */
  function ChooseRow(m: seq<int>, N: nat, cur: nat, row: nat, maxZeros: nat): nat
    requires |m| == Mul(N, N) && cur <= N
    decreases N - cur
  {
    if cur == N then row
    else
      var z := ZerosIn(m, N, cur, N);
      if z > maxZeros then ChooseRow(m, N, cur + 1, cur, z) else ChooseRow(m, N, cur + 1, row, maxZeros)
  }

  /** The search, started at row 0 with no zeros seen, yields a row with the most zeros, and the
    * first of those: every earlier row has strictly fewer. */
  lemma ChooseRowBest(m: seq<int>, N: nat)
    requires |m| == Mul(N, N) && N > 0
    ensures ChooseRow(m, N, 0, 0, 0) < N
    ensures forall r: nat :: r < N ==> ZerosIn(m, N, r, N) <= ZerosIn(m, N, ChooseRow(m, N, 0, 0, 0), N)
    ensures forall r: nat :: r < ChooseRow(m, N, 0, 0, 0) ==>
              ZerosIn(m, N, r, N) < ZerosIn(m, N, ChooseRow(m, N, 0, 0, 0), N)
  {
    ChooseRowFrom(m, N, 0, 0, 0);
  }

  /** The search from row cur keeps the best row of the rows before cur as its invariant. */
  lemma {:induction false} ChooseRowFrom(m: seq<int>, N: nat, cur: nat, row: nat, maxZeros: nat)
    requires |m| == Mul(N, N) && cur <= N && row < N
    requires cur > 0 ==> row < cur && maxZeros == ZerosIn(m, N, row, N)
    requires cur == 0 ==> row == 0 && maxZeros == 0
    requires forall r: nat :: r < cur ==> ZerosIn(m, N, r, N) <= maxZeros
    requires forall r: nat :: r < row ==> ZerosIn(m, N, r, N) < maxZeros
    ensures var best := ChooseRow(m, N, cur, row, maxZeros);
            && best < N
            && (forall r: nat :: r < N ==> ZerosIn(m, N, r, N) <= ZerosIn(m, N, best, N))
            && (forall r: nat :: r < best ==> ZerosIn(m, N, r, N) < ZerosIn(m, N, best, N))
    decreases N - cur
  {
    if cur < N {
      var z := ZerosIn(m, N, cur, N);
      if z > maxZeros {
        ChooseRowFrom(m, N, cur + 1, cur, z);
      } else {
        ChooseRowFrom(m, N, cur + 1, row, maxZeros);
      }
    }
  }

  /** The sign of the cofactor in row r, column c. */
  function Sign(r: nat, c: nat): int
  {
    if (r + c) % 2 == 0 then 1 else -1
  }

  /** The determinant as ext_determinant computes it: the formulas for sizes 0, 1 and 2, and
    * beyond those the cofactor expansion along the row the search chooses. */
  function Det(m: seq<int>, N: nat): int
    requires |m| == Mul(N, N)
    decreases N, 1, 0
  {
    if N == 0 then 0
    else if N == 1 then m[0]
    else if N == 2 then m[0] * m[3] - m[1] * m[2]
    else
      var row := ChooseRow(m, N, 0, 0, 0);
      ChooseRowBest(m, N);
      Expand(m, N, row, N)
  }

  /** The term of row r, column c in the expansion: the element times its signed minor, or
    * nothing for a zero element. */
  function Term(m: seq<int>, N: nat, r: nat, c: nat): int
    requires |m| == Mul(N, N) && r < N && c < N
    decreases N, 0, 0
  {
    var elem := m[Idx(r, c, N, N)];
    if elem == 0 then 0 else elem * Det(SubmatOf(m, N, r, c), N - 1) * Sign(r, c)
  }

  /** The sum of the terms of the first n columns of row r. */
  function Expand(m: seq<int>, N: nat, r: nat, n: nat): int
    requires |m| == Mul(N, N) && r < N && n <= N
    decreases N, 0, n + 1
  {
    if n == 0 then 0 else Expand(m, N, r, n - 1) + Term(m, N, r, n - 1)
  }

  /** ext_determinant: the special cases for sizes up to 2; otherwise the row with the most
    * zeros is found and the determinant expanded along it, skipping zero elements, with the
    * minors computed recursively in one scratch buffer. */
  method Determinant(M: array<int>, N: nat) returns (det: int)
    requires M.Length == Mul(N, N)
    ensures det == Det(M[..], N)
    decreases N, 2
  {
    if N == 0 {
      return 0;
    } else if N == 1 {
      return M[0];
    } else if N == 2 {
      assert Mul(2, 2) == 4;
      return M[0] * M[3] - M[1] * M[2];
    }
    var row := ChooseMaxZerosRow(M, N);
    det := ExpandRow(M, N, row);
  }

  /** The expansion loop of ext_determinant along the chosen row. */
  method ExpandRow(M: array<int>, N: nat, row: nat) returns (det: int)
    requires M.Length == Mul(N, N) && row < N && N > 0
    ensures det == Expand(M[..], N, row, N)
    decreases N, 1
  {
    ghost var m := M[..];
    det := 0;
    var submat := new int[Mul(N - 1, N - 1)];
    var col := 0;
    while col < N
      invariant col <= N && M[..] == m
      invariant det == Expand(m, N, row, col)
    {
      var elem := M[Idx(row, col, N, N)];
      if elem == 0 {
        col := col + 1;
        continue;
      }
      var t := Cofactor(M, N, row, col, submat);
      det := det + t;
      col := col + 1;
    }
  }

  /** One pass of the expansion loop for a non-zero element: the minor goes into the scratch
    * buffer and its determinant, computed recursively, times the element and the sign is the
    * term added. */
  method Cofactor(M: array<int>, N: nat, row: nat, col: nat, submat: array<int>) returns (t: int)
    requires row < N && col < N && M != submat
    requires M.Length == Mul(N, N) && submat.Length == Mul(N - 1, N - 1)
    requires M[Idx(row, col, N, N)] != 0
    modifies submat
    ensures t == Term(M[..], N, row, col)
    decreases N, 0
  {
    var elem := M[Idx(row, col, N, N)];
    Submat(M, N, submat, row, col);
    var sgn := if (row + col) % 2 == 0 then 1 else -1;
    var minor := Determinant(submat, N - 1);
    t := elem * minor * sgn;
  }

  /** The row loop of ext_determinant: count the zeros of every row and keep the first row with
    * the most. */
  method ChooseMaxZerosRow(M: array<int>, N: nat) returns (row: nat)
    requires M.Length == Mul(N, N) && N > 0
    ensures row == ChooseRow(M[..], N, 0, 0, 0) && row < N
  {
    ghost var m := M[..];
    ChooseRowBest(m, N);
    row := 0;
    var maxNumZeros := 0;
    var curRow := 0;
    while curRow < N
      invariant curRow <= N
      invariant ChooseRow(m, N, curRow, row, maxNumZeros) == ChooseRow(m, N, 0, 0, 0)
    {
      var numZeros := 0;
      var curCol := 0;
      while curCol < N
        invariant curCol <= N && numZeros == ZerosIn(m, N, curRow, curCol)
      {
        if M[Idx(curRow, curCol, N, N)] == 0 {
          numZeros := numZeros + 1;
        }
        curCol := curCol + 1;
      }
      if numZeros > maxNumZeros {
        row := curRow;
        maxNumZeros := numZeros;
      }
      curRow := curRow + 1;
    }
  }

  /** Expanding along a row of zeros gives zero. */
  lemma {:induction false} ExpandZeroRow(m: seq<int>, N: nat, r: nat, n: nat)
    requires |m| == Mul(N, N) && r < N && n <= N
    requires forall c: nat :: c < n ==> m[Idx(r, c, N, N)] == 0
    ensures Expand(m, N, r, n) == 0
  {
    if n > 0 {
      ExpandZeroRow(m, N, r, n - 1);
    }
  }

  /** A matrix with a row of zeros has determinant zero: the search then settles on a row of
    * zeros, whose expansion is zero. */
  lemma ZeroRowDet(m: seq<int>, N: nat, i: nat)
    requires |m| == Mul(N, N) && i < N
    requires forall c: nat :: c < N ==> m[Idx(i, c, N, N)] == 0
    ensures Det(m, N) == 0
  {
    if N == 1 {
      assert m[Idx(0, 0, 1, 1)] == 0;
    } else if N == 2 {
      assert m[Idx(i, 0, 2, 2)] == 0 && m[Idx(i, 1, 2, 2)] == 0;
      assert Idx(1, 0, 2, 2) == 2;
    } else if N > 2 {
      var row := ChooseRow(m, N, 0, 0, 0);
      ChooseRowBest(m, N);
      ZerosInAll(m, N, i, N);
      ZerosInAll(m, N, row, N);
      ExpandZeroRow(m, N, row, N);
    }
  }

  /** Row r of the identity has a zero in every column but column r. */
  lemma {:induction false} ZerosInIdentity(N: nat, r: nat, n: nat)
    requires r < N && n <= N
    ensures ZerosIn(Identity(N), N, r, n) == if r < n then n - 1 else n
  {
    if n > 0 {
      ZerosInIdentity(N, r, n - 1);
    }
  }

  /** Along row 0 of the identity only the first column contributes: its minor. */
  lemma {:induction false} ExpandIdentity(N: nat, n: nat)
    requires 0 < n <= N
    ensures Expand(Identity(N), N, 0, n) == Det(SubmatOf(Identity(N), N, 0, 0), N - 1)
  {
    if n > 1 {
      ExpandIdentity(N, n - 1);
    }
  }

  /** Removing the first row and column of the identity leaves the smaller identity. */
  lemma SubmatIdentity(N: nat)
    requires N > 0
    ensures SubmatOf(Identity(N), N, 0, 0) == Identity(N - 1)
  {
    var m := Identity(N);
    assert IsIdentity(m, N);
    var s := SubmatOf(m, N, 0, 0);
    SubmatIdentityDiagonal(m, s, N, N - 1);
    IdentityEqual(s, N - 1);
  }

  lemma SubmatIdentityDiagonal(m: seq<int>, s: seq<int>, N: nat, n: nat)
    requires N > 0 && n == N - 1 && IsIdentity(m, N) && s == SubmatOf(m, N, 0, 0)
    ensures IsIdentity(s, n)
  {
    forall r: nat, c: nat | r < n && c < n
      ensures s[Idx(r, c, n, n)] == if r == c then 1 else 0
    {
      assert Skip(r, 0) == r + 1 && Skip(c, 0) == c + 1;
      assert s[Idx(r, c, n, n)] == m[Idx(r + 1, c + 1, N, N)];
    }
  }

  /** A square buffer with ones exactly on the diagonal is the identity. */
  lemma IdentityEqual(s: seq<int>, n: nat)
    requires IsIdentity(s, n)
    ensures s == Identity(n)
  {
    var id := Identity(n);
    forall k | 0 <= k < |s|
      ensures s[k] == id[k]
    {
      var r, c := IdxSplit(k, n, n);
    }
  }

  /** The identity has determinant 1 (the empty matrix has 0, as ext_determinant returns). */
  lemma {:induction false} DetIdentity(N: nat)
    ensures Det(Identity(N), N) == if N == 0 then 0 else 1
  {
    var m := Identity(N);
    if N == 1 {
      assert m[Idx(0, 0, 1, 1)] == 1;
    } else if N == 2 {
      assert m[Idx(0, 0, 2, 2)] == 1 && m[Idx(1, 1, 2, 2)] == 1;
      assert m[Idx(0, 1, 2, 2)] == 0 && m[Idx(1, 0, 2, 2)] == 0;
    } else if N > 2 {
      var row := ChooseRow(m, N, 0, 0, 0);
      ChooseRowBest(m, N);
      ZerosInIdentity(N, 0, N);
      ZerosInIdentity(N, row, N);
      assert row == 0;
      ExpandIdentity(N, N);
      SubmatIdentity(N);
      DetIdentity(N - 1);
    }
  }

  // ---------------------------------------------------------------------------------------------
  // ext_transpose

  /** The cols by rows transpose of a rows by cols matrix. */
  function TransposeOf(m: seq<int>, rows: nat, cols: nat): (t: seq<int>)
    requires |m| == Mul(rows, cols)
    ensures |t| == Mul(cols, rows)
    ensures forall i: nat, j: nat :: i < rows && j < cols ==> t[Idx(j, i, rows, cols)] == m[Idx(i, j, cols, rows)]
  {
    Grid(cols, rows, (j: nat, i: nat) => if i < rows && j < cols then m[Idx(i, j, cols, rows)] else 0)
  }

  /** ext_transpose: T[j * rows + i] = M[i * cols + j] for every row i and column j of M. */
  method Transpose(M: array<int>, T: array<int>, rows: nat, cols: nat)
    requires M != T && M.Length == Mul(rows, cols) && T.Length == Mul(cols, rows)
    modifies T
    ensures T[..] == TransposeOf(M[..], rows, cols)
  {
    var i := 0;
    while i < rows
      invariant i <= rows
      invariant forall i': nat, j: nat :: i' < i && j < cols ==> T[Idx(j, i', rows, cols)] == M[Idx(i', j, cols, rows)]
    {
      var j := 0;
      while j < cols
        invariant j <= cols
        invariant forall i': nat, j': nat :: i' < i && j' < cols ==> T[Idx(j', i', rows, cols)] == M[Idx(i', j', cols, rows)]
        invariant forall j': nat :: j' < j ==> T[Idx(j', i, rows, cols)] == M[Idx(i, j', cols, rows)]
      {
        T[Idx(j, i, rows, cols)] := M[Idx(i, j, cols, rows)];
        forall i': nat, j': nat | (i' < i && j' < cols) || (i' == i && j' < j)
          ensures Idx(j', i', rows, cols) != Idx(j, i, rows, cols)
        {
          IdxInjective(j', i', j, i, rows, cols);
        }
        j := j + 1;
      }
      i := i + 1;
    }
    TransposeEqual(T[..], M[..], rows, cols);
  }

  lemma TransposeEqual(t: seq<int>, m: seq<int>, rows: nat, cols: nat)
    requires |m| == Mul(rows, cols) && |t| == Mul(cols, rows)
    requires forall i: nat, j: nat :: i < rows && j < cols ==> t[Idx(j, i, rows, cols)] == m[Idx(i, j, cols, rows)]
    ensures t == TransposeOf(m, rows, cols)
  {
    var u := TransposeOf(m, rows, cols);
    forall k | 0 <= k < |t|
      ensures t[k] == u[k]
    {
      var j, i := IdxSplit(k, rows, cols);
    }
  }

  /** Transposing twice gives the matrix back. */
  lemma TransposeTwice(m: seq<int>, rows: nat, cols: nat)
    requires |m| == Mul(rows, cols)
    ensures TransposeOf(TransposeOf(m, rows, cols), cols, rows) == m
  {
    var t := TransposeOf(m, rows, cols);
    var u := TransposeOf(t, cols, rows);
    forall k | 0 <= k < |m|
      ensures u[k] == m[k]
    {
      var i, j := IdxSplit(k, cols, rows);
      assert u[Idx(i, j, cols, rows)] == t[Idx(j, i, rows, cols)];
    }
  }

  // ---------------------------------------------------------------------------------------------
  // ext_mult

  /** The sum over k < n of a[i][k] * b[k][j], for an I by K matrix a and a K by J matrix b. */
  function Dot(a: seq<int>, b: seq<int>, I: nat, J: nat, K: nat, i: nat, j: nat, n: nat): int
    requires |a| == Mul(I, K) && |b| == Mul(K, J) && i < I && j < J && n <= K
  {
    if n == 0 then 0
    else Dot(a, b, I, J, K, i, j, n - 1) + a[Idx(i, n - 1, K, I)] * b[Idx(n - 1, j, J, K)]
  }

  /** The I by J product of an I by K and a K by J matrix. */
  function MatMul(a: seq<int>, b: seq<int>, I: nat, J: nat, K: nat): (r: seq<int>)
    requires |a| == Mul(I, K) && |b| == Mul(K, J)
    ensures |r| == Mul(I, J)
    ensures forall i: nat, j: nat :: i < I && j < J ==> r[Idx(i, j, J, I)] == Dot(a, b, I, J, K, i, j, K)
  {
    Grid(I, J, (i: nat, j: nat) => if i < I && j < J then Dot(a, b, I, J, K, i, j, K) else 0)
  }

  /** A buffer that agrees with the product element by element is the product. */
  lemma MatMulEqual(s: seq<int>, a: seq<int>, b: seq<int>, I: nat, J: nat, K: nat)
    requires |a| == Mul(I, K) && |b| == Mul(K, J) && |s| == Mul(I, J)
    requires forall r: nat, c: nat :: r < I && c < J ==> s[Idx(r, c, J, I)] == Dot(a, b, I, J, K, r, c, K)
    ensures s == MatMul(a, b, I, J, K)
  {
    var t := MatMul(a, b, I, J, K);
    forall k | 0 <= k < |s|
      ensures s[k] == t[k]
    {
      var r, c := IdxSplit(k, J, I);
    }
  }

  /** ext_mult: RES[i * J + j] = sum over k of M1[i * K + k] * M2[k * J + j]. */
  method Mult(M1: array<int>, M2: array<int>, RES: array<int>, I: nat, J: nat, K: nat)
    requires RES != M1 && RES != M2
    requires M1.Length == Mul(I, K) && M2.Length == Mul(K, J) && RES.Length == Mul(I, J)
    modifies RES
    ensures RES[..] == MatMul(M1[..], M2[..], I, J, K)
  {
    ghost var a, b := M1[..], M2[..];
    var i := 0;
    while i < I
      invariant i <= I
      invariant forall r: nat, c: nat :: r < i && c < J ==> RES[Idx(r, c, J, I)] == Dot(a, b, I, J, K, r, c, K)
    {
      var j := 0;
      while j < J
        invariant j <= J
        invariant forall r: nat, c: nat :: r < i && c < J ==> RES[Idx(r, c, J, I)] == Dot(a, b, I, J, K, r, c, K)
        invariant forall c: nat :: c < j ==> RES[Idx(i, c, J, I)] == Dot(a, b, I, J, K, i, c, K)
      {
        var at := Idx(i, j, J, I);
        forall r: nat, c: nat | (r < i && c < J) || (r == i && c < j)
          ensures Idx(r, c, J, I) != at
        {
          IdxInjective(r, c, i, j, J, I);
        }
        RES[at] := 0;
        var k := 0;
        while k < K
          invariant k <= K
          invariant RES[at] == Dot(a, b, I, J, K, i, j, k)
          invariant forall r: nat, c: nat :: r < i && c < J ==> RES[Idx(r, c, J, I)] == Dot(a, b, I, J, K, r, c, K)
          invariant forall c: nat :: c < j ==> RES[Idx(i, c, J, I)] == Dot(a, b, I, J, K, i, c, K)
        {
          RES[at] := RES[at] + M1[Idx(i, k, K, I)] * M2[Idx(k, j, J, K)];
          k := k + 1;
        }
        j := j + 1;
      }
      i := i + 1;
    }
    MatMulEqual(RES[..], a, b, I, J, K);
  }

  /** The n by n identity matrix. */
  function Identity(n: nat): (r: seq<int>)
    ensures |r| == Mul(n, n)
    ensures forall i: nat, j: nat :: i < n && j < n ==> r[Idx(i, j, n, n)] == if i == j then 1 else 0
  {
    Grid(n, n, (i: nat, j: nat) => if i == j then 1 else 0)
  }

  /** The identity as its contents: ones exactly on the diagonal. */
  predicate IsIdentity(id: seq<int>, n: nat)
  {
    |id| == Mul(n, n) && forall r: nat, c: nat :: r < n && c < n ==> id[Idx(r, c, n, n)] == if r == c then 1 else 0
  }

  /** Multiplying by the identity on the right: the sum picks out column j. */
  lemma {:induction false} DotIdentityRight(a: seq<int>, id: seq<int>, I: nat, J: nat, i: nat, j: nat, n: nat)
    requires |a| == Mul(I, J) && IsIdentity(id, J) && i < I && j < J && n <= J
    ensures Dot(a, id, I, J, J, i, j, n) == if j < n then a[Idx(i, j, J, I)] else 0
  {
    if n > 0 {
      DotIdentityRight(a, id, I, J, i, j, n - 1);
      assert id[Idx(n - 1, j, J, J)] == if n - 1 == j then 1 else 0;
    }
  }

  /** Multiplying by the identity on the left: the sum picks out row i. */
  lemma {:induction false} DotIdentityLeft(b: seq<int>, id: seq<int>, I: nat, J: nat, i: nat, j: nat, n: nat)
    requires |b| == Mul(I, J) && IsIdentity(id, I) && i < I && j < J && n <= I
    ensures Dot(id, b, I, J, I, i, j, n) == if i < n then b[Idx(i, j, J, I)] else 0
  {
    if n > 0 {
      DotIdentityLeft(b, id, I, J, i, j, n - 1);
      assert id[Idx(i, n - 1, I, I)] == if i == n - 1 then 1 else 0;
    }
  }

  /** The identity is neutral for the product on both sides. */
  lemma MatMulIdentity(a: seq<int>, I: nat, J: nat)
    requires |a| == Mul(I, J)
    ensures MatMul(a, Identity(J), I, J, J) == a
    ensures MatMul(Identity(I), a, I, J, I) == a
  {
    var idJ, idI := Identity(J), Identity(I);
    assert IsIdentity(idJ, J) && IsIdentity(idI, I);
    MatMulIdentityRight(a, idJ, I, J);
    MatMulIdentityLeft(a, idI, I, J);
  }

  lemma MatMulIdentityRight(a: seq<int>, id: seq<int>, I: nat, J: nat)
    requires |a| == Mul(I, J) && IsIdentity(id, J)
    ensures MatMul(a, id, I, J, J) == a
  {
    var r := MatMul(a, id, I, J, J);
    forall k | 0 <= k < |a|
      ensures r[k] == a[k]
    {
      var i, j := IdxSplit(k, J, I);
      DotIdentityRight(a, id, I, J, i, j, J);
    }
  }

  lemma MatMulIdentityLeft(a: seq<int>, id: seq<int>, I: nat, J: nat)
    requires |a| == Mul(I, J) && IsIdentity(id, I)
    ensures MatMul(id, a, I, J, I) == a
  {
    var l := MatMul(id, a, I, J, I);
    forall k | 0 <= k < |a|
      ensures l[k] == a[k]
    {
      var i, j := IdxSplit(k, J, I);
      DotIdentityLeft(a, id, I, J, i, j, I);
    }
  }

  // ---------------------------------------------------------------------------------------------
  // ext_power

  /** m to the power p, with m^0 the identity. */
  function MatPow(m: seq<int>, N: nat, p: nat): (r: seq<int>)
    requires |m| == Mul(N, N)
    ensures |r| == Mul(N, N)
  {
    if p == 0 then Identity(N) else MatMul(MatPow(m, N, p - 1), m, N, N, N)
  }

  /** The first power is the matrix itself. */
  lemma MatPowOne(m: seq<int>, N: nat)
    requires |m| == Mul(N, N)
    ensures MatPow(m, N, 1) == m
  {
    MatMulIdentity(m, N, N);
  }

  /** The multiplication loop of ext_power: Mtmp holds the first power (or, as evidently
    * intended, the identity for power 0) and is multiplied by M powPos - 1 times, each product
    * going through Mtmp2; Mtmp2 keeps its initial contents when the loop does not run. */
  method MultiplyUp(M: array<int>, Mtmp: array<int>, Mtmp2: array<int>, N: nat, powPos: nat,
                    fixed: bool, ghost garbage: seq<int>)
    requires M != Mtmp && M != Mtmp2 && Mtmp != Mtmp2
    requires M.Length == Mul(N, N) && Mtmp.Length == Mul(N, N) && Mtmp2.Length == Mul(N, N)
    requires Mtmp[..] == MatPow(M[..], N, if powPos == 0 && fixed then 0 else 1)
    requires Mtmp2[..] == garbage
    modifies Mtmp, Mtmp2
    ensures powPos >= 1 || fixed ==> Mtmp[..] == MatPow(M[..], N, powPos)
    ensures powPos >= 2 ==> Mtmp2[..] == MatPow(M[..], N, powPos)
    ensures powPos <= 1 ==> Mtmp2[..] == garbage
  {
    var i := 0;
    while i < powPos - 1
      invariant 0 <= i && (i <= powPos - 1 || (powPos <= 1 && i == 0))
      invariant Mtmp[..] == MatPow(M[..], N, if powPos == 0 && fixed then 0 else i + 1)
      invariant i == 0 ==> Mtmp2[..] == garbage
      invariant i > 0 ==> Mtmp2[..] == Mtmp[..]
    {
      Mult(Mtmp, M, Mtmp2, N, N, N);
      CopyMat(Mtmp2, Mtmp, N);
      i := i + 1;
    }
  }

  /** The end of ext_power: for a negative power the inverse of the power in Mtmp goes into
    * Mtmp2 when there is one, then Mtmp2 is copied into P (as written) or, unless it was
    * inverted, Mtmp itself (as evidently intended); the status says whether an inverse existed. */
  method StoreResult(Mtmp: array<int>, Mtmp2: array<int>, P: array<int>, N: nat, pow: int,
                     inverse: seq<int> -> Option<seq<int>>, fixed: bool) returns (status: int)
    requires Mtmp != Mtmp2 && Mtmp != P && Mtmp2 != P
    requires Mtmp.Length == Mul(N, N) && Mtmp2.Length == Mul(N, N) && P.Length == Mul(N, N)
    requires forall s :: inverse(s).Some? ==> |inverse(s).value| == |s|
    modifies Mtmp2, P
    ensures Mtmp[..] == old(Mtmp[..])
    ensures var inv := inverse(Mtmp[..]);
            && (status == if pow < 0 && inv.None? then 0 else 1)
            && (pow < 0 && inv.Some? ==> P[..] == inv.value)
            && (!(pow < 0 && inv.Some?) ==> P[..] == if fixed then Mtmp[..] else old(Mtmp2[..]))
  {
    status := 1;
    var inverted := false;
    if pow < 0 {
      var inv := inverse(Mtmp[..]);
      if inv.Some? {
        forall k | 0 <= k < Mtmp2.Length {
          Mtmp2[k] := inv.value[k];
        }
        assert Mtmp2[..] == inv.value;
        inverted := true;
      } else {
        status := 0;
      }
    }
    if fixed && !inverted {
      CopyMat(Mtmp, P, N);
    } else {
      CopyMat(Mtmp2, P, N);
    }
  }

  /** ext_power: multiply a copy of M by M |POW| - 1 times through a second buffer, invert it
    * for a negative POW (ext_inverse, which works in floating point, is the parameter inverse: a
    * matrix, or nothing when the determinant is zero), then copy the second buffer into P.
    * garbage is what malloc left in that second buffer.  As written (fixed false) the buffer
    * is never written for POW in {0, 1}, so P receives the garbage; as evidently intended (fixed
    * true) M^0 is the identity and P receives the power itself unless it was inverted. */
  method Power(M: array<int>, P: array<int>, N: nat, pow: int, garbage: seq<int>,
               inverse: seq<int> -> Option<seq<int>>, fixed: bool) returns (status: int)
    requires M != P && M.Length == Mul(N, N) && P.Length == Mul(N, N) && |garbage| == Mul(N, N)
    requires forall s :: inverse(s).Some? ==> |inverse(s).value| == |s|
    modifies P
    ensures var n := if pow < 0 then -pow else pow;
            var inv := inverse(MatPow(M[..], N, n));
            && (status == if pow < 0 && inv.None? then 0 else 1)
            && (pow < 0 && inv.Some? ==> P[..] == inv.value)
            && (!(pow < 0 && inv.Some?) && n >= 2 ==> P[..] == MatPow(M[..], N, n))
            && (!(pow < 0 && inv.Some?) && n <= 1 ==> P[..] == if fixed then MatPow(M[..], N, n) else garbage)
  {
    var powPos := if pow < 0 then -pow else pow;
    status := 1;
    var Mtmp := new int[Mul(N, N)];
    var Mtmp2 := new int[Mul(N, N)](k => if 0 <= k < |garbage| then garbage[k] else 0);
    assert Mtmp2[..] == garbage;
    CopyMat(M, Mtmp, N);
    MatPowOne(M[..], N);
    if fixed && powPos == 0 {
      var id := Identity(N);
      forall k | 0 <= k < Mtmp.Length {
        Mtmp[k] := id[k];
      }
      assert Mtmp[..] == id;
    }
    MultiplyUp(M, Mtmp, Mtmp2, N, powPos, fixed, garbage);
    status := StoreResult(Mtmp, Mtmp2, P, N, pow, inverse, fixed);
  }
}
