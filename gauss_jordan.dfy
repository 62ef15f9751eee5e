/**
 * Matrix inversion over GF(2) by Gauss-Jordan elimination: row-reduce
 * [A | I] to [I | A⁻¹]. It stands in for the `np.linalg.inv` call on a
 * galois GF(2) array; that call raises `LinAlgError` on a matrix that is not
 * square or has no pivot in some column, which the model returns as `None`.
 */
module GaussJordan {
  import opened Wrappers
  import opened GF2

  // ---------------------------------------------------------------------
  // Elementary operations
  // ---------------------------------------------------------------------

  function SwapRows(M: Matrix, i: nat, j: nat): (R: Matrix)
    requires i < M.rows && j < M.rows
    ensures R.rows == M.rows && R.cols == M.cols
  {
    BitMatrix(M.rows, M.cols, M.bits[i := M.bits[j]][j := M.bits[i]])
  }

  /** Row `dst` becomes row `dst` plus row `src`. */
  function AddRow(M: Matrix, src: nat, dst: nat): (R: Matrix)
    requires src < M.rows && dst < M.rows
    ensures R.rows == M.rows && R.cols == M.cols
  {
    BitMatrix(M.rows, M.cols, M.bits[dst := Add(M.bits[dst], M.bits[src])])
  }

  function SwapCols(M: Matrix, i: nat, j: nat): (R: Matrix)
    requires i < M.cols && j < M.cols
    ensures R.rows == M.rows && R.cols == M.cols
  {
    BitMatrix(M.rows, M.cols,
      seq(M.rows, r requires 0 <= r < M.rows => M.bits[r][i := M.bits[r][j]][j := M.bits[r][i]]))
  }

  /** Column `dst` becomes column `dst` plus column `src`. */
  function AddCol(M: Matrix, src: nat, dst: nat): (R: Matrix)
    requires src < M.cols && dst < M.cols
    ensures R.rows == M.rows && R.cols == M.cols
  {
    BitMatrix(M.rows, M.cols,
      seq(M.rows, r requires 0 <= r < M.rows => M.bits[r][dst := M.bits[r][dst] != M.bits[r][src]]))
  }

  // ---------------------------------------------------------------------
  // How the operations interact with products
  // ---------------------------------------------------------------------

  /** A row operation on the left factor is the same row operation on the product. */
  lemma SwapRowsMatMul(R: Matrix, A: Matrix, i: nat, j: nat)
    requires R.cols == A.rows && i < R.rows && j < R.rows
    ensures MatMul(SwapRows(R, i, j), A) == SwapRows(MatMul(R, A), i, j)
  {
    assert MatMul(SwapRows(R, i, j), A).bits == SwapRows(MatMul(R, A), i, j).bits;
  }

  lemma AddRowMatMul(R: Matrix, A: Matrix, src: nat, dst: nat)
    requires R.cols == A.rows && src < R.rows && dst < R.rows
    ensures MatMul(AddRow(R, src, dst), A) == AddRow(MatMul(R, A), src, dst)
  {
    VecMatAdd(R.bits[dst], R.bits[src], A);
    assert MatMul(AddRow(R, src, dst), A).bits == AddRow(MatMul(R, A), src, dst).bits;
  }

  /** Swapping entries i and j of both operands leaves an inner product unchanged. */
  lemma DotSwap(u: Vec, v: Vec, i: nat, j: nat)
    requires |u| == |v| && i < |u| && j < |u|
    ensures Dot(u[i := u[j]][j := u[i]], v[i := v[j]][j := v[i]]) == Dot(u, v)
  {
    if i != j {
      var u1 := u[i := u[j]];
      var v1 := v[i := v[j]];
      DotUpdateLeft(u, v, i, u[j]);
      DotUpdateRight(u1, v, i, v[j]);
      DotUpdateLeft(u1, v1, j, u[i]);
      DotUpdateRight(u1[j := u[i]], v1, j, v[i]);
    } else {
      assert u[i := u[j]][j := u[i]] == u;
      assert v[i := v[j]][j := v[i]] == v;
    }
  }

  /** Adding entry dst of u into entry src, while adding v's src into v's dst, keeps u·v. */
  lemma DotAddCompensate(u: Vec, v: Vec, src: nat, dst: nat)
    requires |u| == |v| && src < |u| && dst < |u| && src != dst
    ensures Dot(u[src := u[src] != u[dst]], v[dst := v[dst] != v[src]]) == Dot(u, v)
  {
    DotUpdateLeft(u, v, src, u[src] != u[dst]);
    DotUpdateRight(u[src := u[src] != u[dst]], v, dst, v[dst] != v[src]);
  }

  /** F·X == SwapCols(F)·SwapRows(X): the compensating column operation. */
  lemma SwapCompensate(F: Matrix, X: Matrix, i: nat, j: nat)
    requires F.cols == X.rows && i < X.rows && j < X.rows
    ensures MatMul(SwapCols(F, i, j), SwapRows(X, i, j)) == MatMul(F, X)
  {
    forall r | 0 <= r < F.rows
      ensures MatMul(SwapCols(F, i, j), SwapRows(X, i, j)).bits[r] == MatMul(F, X).bits[r]
    {
      forall c | 0 <= c < X.cols
        ensures MatMul(SwapCols(F, i, j), SwapRows(X, i, j)).bits[r][c] == MatMul(F, X).bits[r][c]
      {
        var col := Col(X, c);
        assert Col(SwapRows(X, i, j), c) == col[i := col[j]][j := col[i]];
        DotSwap(F.bits[r], col, i, j);
      }
    }
  }

  /** F·X == AddCol(F, dst, src)·AddRow(X, src, dst). */
  lemma AddCompensate(F: Matrix, X: Matrix, src: nat, dst: nat)
    requires F.cols == X.rows && src < X.rows && dst < X.rows && src != dst
    ensures MatMul(AddCol(F, dst, src), AddRow(X, src, dst)) == MatMul(F, X)
  {
    forall r | 0 <= r < F.rows
      ensures MatMul(AddCol(F, dst, src), AddRow(X, src, dst)).bits[r] == MatMul(F, X).bits[r]
    {
      forall c | 0 <= c < X.cols
        ensures MatMul(AddCol(F, dst, src), AddRow(X, src, dst)).bits[r][c] == MatMul(F, X).bits[r][c]
      {
        var col := Col(X, c);
        assert Col(AddRow(X, src, dst), c) == col[dst := col[dst] != col[src]];
        DotAddCompensate(F.bits[r], col, src, dst);
      }
    }
  }

  // ---------------------------------------------------------------------
  // The elimination invariant
  // ---------------------------------------------------------------------

  /**
   * The state of the elimination: Left == Right·A, A == F·Left and F·Right == I,
   * with all matrices n x n. F records the inverses of the row operations so far.
   */
  ghost predicate Tracks(A: Matrix, left: Matrix, right: Matrix, F: Matrix, n: nat) {
    && A.rows == n && A.cols == n
    && left.rows == n && left.cols == n
    && right.rows == n && right.cols == n
    && F.rows == n && F.cols == n
    && MatMul(right, A) == left
    && MatMul(F, left) == A
    && MatMul(F, right) == Identity(n)
  }

  /** Columns 0..col-1 of M are the unit columns e_0..e_{col-1}. */
  ghost predicate ReducedUpTo(M: Matrix, col: nat) {
    forall r, c :: 0 <= r < M.rows && 0 <= c < col && c < M.cols ==> M.bits[r][c] == (r == c)
  }

  lemma TracksSwap(A: Matrix, left: Matrix, right: Matrix, F: Matrix, n: nat, i: nat, j: nat)
    requires Tracks(A, left, right, F, n) && i < n && j < n
    ensures Tracks(A, SwapRows(left, i, j), SwapRows(right, i, j), SwapCols(F, i, j), n)
  {
    SwapRowsMatMul(right, A, i, j);
    SwapCompensate(F, left, i, j);
    SwapCompensate(F, right, i, j);
  }

  lemma TracksAdd(A: Matrix, left: Matrix, right: Matrix, F: Matrix, n: nat, src: nat, dst: nat)
    requires Tracks(A, left, right, F, n) && src < n && dst < n && src != dst
    ensures Tracks(A, AddRow(left, src, dst), AddRow(right, src, dst), AddCol(F, dst, src), n)
  {
    AddRowMatMul(right, A, src, dst);
    AddCompensate(F, left, src, dst);
    AddCompensate(F, right, src, dst);
  }

  /** Swapping the pivot row p into place keeps the reduced columns and puts a 1 on the diagonal. */
  lemma SwapKeepsReduced(left: Matrix, col: nat, p: nat)
    requires col <= p < left.rows && col < left.cols
    requires ReducedUpTo(left, col) && left.bits[p][col]
    ensures ReducedUpTo(SwapRows(left, col, p), col)
    ensures SwapRows(left, col, p).bits[col][col]
  {
  }

  /** Adding the pivot row to row i clears entry (i, col) and touches nothing else that is reduced. */
  lemma AddKeepsReduced(left: Matrix, col: nat, i: nat)
    requires col < left.rows && col < left.cols && i < left.rows && i != col
    requires ReducedUpTo(left, col) && left.bits[col][col] && left.bits[i][col]
    ensures ReducedUpTo(AddRow(left, col, i), col)
    ensures !AddRow(left, col, i).bits[i][col]
    ensures forall q :: 0 <= q < left.rows && q != i ==> AddRow(left, col, i).bits[q] == left.bits[q]
  {
  }

  /** When every column is reduced, Right is a two-sided inverse of A. */
  lemma FinishedIsInverse(A: Matrix, left: Matrix, right: Matrix, F: Matrix, n: nat)
    requires Tracks(A, left, right, F, n) && ReducedUpTo(left, n)
    ensures IsInverse(A, right)
  {
    forall r | 0 <= r < n
      ensures left.bits[r] == Identity(n).bits[r]
    {
      assert forall c :: 0 <= c < n ==> left.bits[r][c] == (r == c);
    }
    assert left == Identity(n);
    MatMulIdentityRight(F);
    assert F == A;
  }

  /**
   * If column col has no pivot at or below the diagonal, then x = e_col plus the
   * entries above the diagonal of that column is a non-zero kernel vector of Left.
   */
  lemma KernelVector(left: Matrix, col: nat) returns (x: Vec)
    requires left.rows == left.cols && col < left.rows
    requires ReducedUpTo(left, col)
    requires forall q :: col <= q < left.rows ==> !left.bits[q][col]
    ensures |x| == left.cols && x[col]
    ensures MatVec(left, x) == Zero(left.rows)
  {
    var n := left.rows;
    x := seq(n, c requires 0 <= c < n => c == col || (c < col && left.bits[c][col]));
    forall r | 0 <= r < n
      ensures !Dot(left.bits[r], x)
    {
      var row := left.bits[r];
      assert row == row[..col] + [row[col]] + row[col + 1..];
      assert x == x[..col] + [x[col]] + x[col + 1..];
      DotAppend(row[..col] + [row[col]], row[col + 1..], x[..col] + [x[col]], x[col + 1..]);
      DotAppend(row[..col], [row[col]], x[..col], [x[col]]);
      assert x[col + 1..] == Zero(n - col - 1);
      DotZeroRight(row[col + 1..]);
      if r < col {
        assert row[..col] == Unit(col, r);
        DotUnitLeft(r, x[..col]);
      } else {
        assert row[..col] == Zero(col);
        DotZeroLeft(x[..col]);
      }
    }
  }

  /** A matrix with a non-zero kernel vector has no left inverse, hence no inverse. */
  lemma KernelMeansSingular(A: Matrix, left: Matrix, right: Matrix, F: Matrix, n: nat, x: Vec, col: nat)
    requires Tracks(A, left, right, F, n)
    requires |x| == n && col < n && x[col] && MatVec(left, x) == Zero(n)
    ensures !Invertible(A)
  {
    if Invertible(A) {
      var B := InverseOf(A);
      calc {
        MatVec(A, x);
        MatVec(MatMul(F, left), x);
        { MatVecAssoc(F, left, x); }
        MatVec(F, Zero(n));
        { MatVecZero(F); }
        Zero(n);
      }
      calc {
        x;
        { MatVecIdentity(x); }
        MatVec(Identity(n), x);
        MatVec(MatMul(B, A), x);
        { MatVecAssoc(B, A, x); }
        MatVec(B, Zero(n));
        { MatVecZero(B); }
        Zero(n);
      }
      assert false;
    }
  }

  // ---------------------------------------------------------------------
  // The algorithm
  // ---------------------------------------------------------------------

  /**
   * With a 1 on the diagonal of column col, add the pivot row to every other row
   * that has a 1 in that column, so that column col becomes e_col.
   */
  method ClearColumn(ghost A: Matrix, left0: Matrix, right0: Matrix, ghost F0: Matrix, n: nat, col: nat)
    returns (left: Matrix, right: Matrix, ghost F: Matrix)
    requires col < n && Tracks(A, left0, right0, F0, n)
    requires ReducedUpTo(left0, col) && left0.bits[col][col]
    ensures Tracks(A, left, right, F, n)
    ensures ReducedUpTo(left, col + 1)
  {
    left, right, F := left0, right0, F0;
    var i := 0;
    while i < n
      invariant i <= n
      invariant Tracks(A, left, right, F, n)
      invariant ReducedUpTo(left, col)
      invariant left.bits[col][col]
      invariant forall q :: 0 <= q < i ==> left.bits[q][col] == (q == col)
    {
      if i != col && left.bits[i][col] {
        TracksAdd(A, left, right, F, n, col, i);
        AddKeepsReduced(left, col, i);
        left, right, F := AddRow(left, col, i), AddRow(right, col, i), AddCol(F, i, col);
      }
      i := i + 1;
    }
  }

  /**
   * Gauss-Jordan elimination over GF(2). Returns the inverse when A is
   * invertible and None exactly when it is not (not square, or singular).
   */
  method Invert(A: Matrix) returns (r: Option<Matrix>)
    ensures r.Some? ==> IsInverse(A, r.value)
    ensures r.None? <==> !Invertible(A)
  {
    if A.rows != A.cols {
      return None;
    }
    var n := A.rows;
    var left := A;
    var right := Identity(n);
    ghost var F := Identity(n);
    MatMulIdentityLeft(A);
    MatMulIdentityLeft(right);
    var col := 0;
    while col < n
      invariant col <= n
      invariant Tracks(A, left, right, F, n)
      invariant ReducedUpTo(left, col)
    {
      // Find a pivot: a row at or below the diagonal with a 1 in this column.
      var p := col;
      while p < n && !left.bits[p][col]
        invariant col <= p <= n
        invariant forall q :: col <= q < p ==> !left.bits[q][col]
      {
        p := p + 1;
      }
      if p == n {
        var x := KernelVector(left, col);
        KernelMeansSingular(A, left, right, F, n, x, col);
        return None;
      }
      TracksSwap(A, left, right, F, n, col, p);
      SwapKeepsReduced(left, col, p);
      left, right, F := SwapRows(left, col, p), SwapRows(right, col, p), SwapCols(F, col, p);
      left, right, F := ClearColumn(A, left, right, F, n, col);
      col := col + 1;
    }
    FinishedIsInverse(A, left, right, F, n);
    return Some(right);
  }
}
