/** Option and result values, standing in for the exceptions numpy and galois raise. */
module Wrappers {
  datatype Option<T> = None | Some(value: T)

  datatype Result<T, E> = Ok(value: T) | Err(error: E)
}

/**
 * Linear algebra over GF(2), the two-element field: a bit is a `bool`,
 * addition is exclusive or (`!=`) and multiplication is `&&`.
 *
 * This is the part of numpy/galois that the cryptosystem uses: the `@`
 * product of a row vector by a matrix (`msg @ G`), of a matrix by a column
 * vector (`H @ r`), of two matrices (`S @ G_total @ P`), and vector addition.
 * A matrix carries its own shape, as a numpy array does.
 */
module GF2 {
  type Vec = seq<bool>

  datatype BitMatrix = BitMatrix(rows: nat, cols: nat, bits: seq<seq<bool>>)

  predicate WellFormed(m: BitMatrix) {
    |m.bits| == m.rows && forall i :: 0 <= i < m.rows ==> |m.bits[i]| == m.cols
  }

  /** A rectangular bit matrix whose shape is `rows` x `cols`. */
  type Matrix = m: BitMatrix | WellFormed(m) witness BitMatrix(0, 0, [])

  // ---------------------------------------------------------------------
  // Vectors
  // ---------------------------------------------------------------------

  function Zero(n: nat): (z: Vec)
    ensures |z| == n
  {
    seq(n, _ => false)
  }

  /** The unit vector e_p of length n. */
  function Unit(n: nat, p: nat): (e: Vec)
    requires p < n
    ensures |e| == n
  {
    seq(n, i => i == p)
  }

  /** Vector addition over GF(2): bitwise exclusive or. */
  function Add(u: Vec, v: Vec): (w: Vec)
    requires |u| == |v|
    ensures |w| == |u|
  {
    seq(|u|, i requires 0 <= i < |u| => u[i] != v[i])
  }

  function Scale(b: bool, v: Vec): (w: Vec)
    ensures |w| == |v|
  {
    if b then v else Zero(|v|)
  }

  /** Inner product over GF(2): the parity of the positions where both are 1. */
  function Dot(u: Vec, v: Vec): bool
    requires |u| == |v|
  {
    if |u| == 0 then false else (u[0] && v[0]) != Dot(u[1..], v[1..])
  }

  /** The number of ones in a vector (its Hamming weight). */
  function Weight(v: Vec): nat
  {
    if |v| == 0 then 0 else (if v[0] then 1 else 0) + Weight(v[1..])
  }

  // ---------------------------------------------------------------------
  // Matrices
  // ---------------------------------------------------------------------

  function Col(A: Matrix, j: nat): (c: Vec)
    requires j < A.cols
    ensures |c| == A.rows
  {
    seq(A.rows, i requires 0 <= i < A.rows => A.bits[i][j])
  }

  /** The matrix without its first row. */
  function Tail(A: Matrix): (B: Matrix)
    requires A.rows > 0
    ensures B.rows == A.rows - 1 && B.cols == A.cols
  {
    BitMatrix(A.rows - 1, A.cols, A.bits[1..])
  }

  /** Row vector times matrix: entry j is the inner product of v with column j. */
  function VecMat(v: Vec, A: Matrix): (w: Vec)
    requires |v| == A.rows
    ensures |w| == A.cols
  {
    seq(A.cols, j requires 0 <= j < A.cols => Dot(v, Col(A, j)))
  }

  /** Matrix times column vector: entry i is the inner product of row i with x. */
  function MatVec(A: Matrix, x: Vec): (y: Vec)
    requires |x| == A.cols
    ensures |y| == A.rows
  {
    seq(A.rows, i requires 0 <= i < A.rows => Dot(A.bits[i], x))
  }

  /** Matrix product over GF(2): row i of A·B is (row i of A)·B. */
  function MatMul(A: Matrix, B: Matrix): (C: Matrix)
    requires A.cols == B.rows
    ensures C.rows == A.rows && C.cols == B.cols
  {
    BitMatrix(A.rows, B.cols, seq(A.rows, i requires 0 <= i < A.rows => VecMat(A.bits[i], B)))
  }

  function Identity(n: nat): (I: Matrix)
    ensures I.rows == n && I.cols == n
  {
    BitMatrix(n, n, seq(n, i requires 0 <= i < n => Unit(n, i)))
  }

  function ZeroMatrix(r: nat, c: nat): (Z: Matrix)
    ensures Z.rows == r && Z.cols == c
  {
    BitMatrix(r, c, seq(r, _ => Zero(c)))
  }

  function Transpose(A: Matrix): (T: Matrix)
    ensures T.rows == A.cols && T.cols == A.rows
  {
    BitMatrix(A.cols, A.rows, seq(A.cols, j requires 0 <= j < A.cols => Col(A, j)))
  }

  /** B is a two-sided inverse of the square matrix A. */
  predicate IsInverse(A: Matrix, B: Matrix) {
    && A.rows == A.cols && B.rows == A.rows && B.cols == A.cols
    && MatMul(A, B) == Identity(A.rows)
    && MatMul(B, A) == Identity(A.rows)
  }

  /** A is square and has an inverse over GF(2). */
  ghost predicate Invertible(A: Matrix) {
    exists B: Matrix :: IsInverse(A, B)
  }

  /** The inverse of an invertible matrix (unique, by InverseUnique). */
  ghost function InverseOf(A: Matrix): (B: Matrix)
    requires Invertible(A)
    ensures IsInverse(A, B)
  {
    var B :| IsInverse(A, B); B
  }

  // ---------------------------------------------------------------------
  // Inner products
  // ---------------------------------------------------------------------

  lemma {:induction false} DotZeroLeft(v: Vec)
    ensures !Dot(Zero(|v|), v)
  {
    if |v| > 0 {
      assert Zero(|v|)[1..] == Zero(|v| - 1);
      DotZeroLeft(v[1..]);
    }
  }

  lemma {:induction false} DotComm(u: Vec, v: Vec)
    requires |u| == |v|
    ensures Dot(u, v) == Dot(v, u)
  {
    if |u| > 0 {
      DotComm(u[1..], v[1..]);
    }
  }

  lemma DotZeroRight(u: Vec)
    ensures !Dot(u, Zero(|u|))
  {
    DotZeroLeft(u);
    DotComm(u, Zero(|u|));
  }

  /** The inner product of two concatenations splits at the seam. */
  lemma {:induction false} DotAppend(u1: Vec, u2: Vec, v1: Vec, v2: Vec)
    requires |u1| == |v1| && |u2| == |v2|
    ensures Dot(u1 + u2, v1 + v2) == (Dot(u1, v1) != Dot(u2, v2))
  {
    if |u1| == 0 {
      assert u1 + u2 == u2;
      assert v1 + v2 == v2;
    } else {
      assert (u1 + u2)[1..] == u1[1..] + u2;
      assert (v1 + v2)[1..] == v1[1..] + v2;
      DotAppend(u1[1..], u2, v1[1..], v2);
    }
  }

  /** The inner product with a unit vector picks one entry. */
  lemma {:induction false} DotUnitLeft(p: nat, v: Vec)
    requires p < |v|
    ensures Dot(Unit(|v|, p), v) == v[p]
  {
    if p == 0 {
      assert Unit(|v|, p)[1..] == Zero(|v| - 1);
      DotZeroLeft(v[1..]);
    } else {
      assert Unit(|v|, p)[1..] == Unit(|v| - 1, p - 1);
      DotUnitLeft(p - 1, v[1..]);
    }
  }

  lemma DotUnitRight(u: Vec, p: nat)
    requires p < |u|
    ensures Dot(u, Unit(|u|, p)) == u[p]
  {
    DotUnitLeft(p, u);
    DotComm(u, Unit(|u|, p));
  }

  /** Changing one entry of the left operand changes the product by that entry's contribution. */
  lemma {:induction false} DotUpdateLeft(u: Vec, v: Vec, k: nat, x: bool)
    requires |u| == |v| && k < |u|
    ensures Dot(u[k := x], v) == (Dot(u, v) != ((u[k] != x) && v[k]))
  {
    if k == 0 {
      assert u[k := x][1..] == u[1..];
    } else {
      assert u[k := x][1..] == u[1..][k - 1 := x];
      DotUpdateLeft(u[1..], v[1..], k - 1, x);
    }
  }

  lemma DotUpdateRight(u: Vec, v: Vec, k: nat, x: bool)
    requires |u| == |v| && k < |u|
    ensures Dot(u, v[k := x]) == (Dot(u, v) != (u[k] && (v[k] != x)))
  {
    DotUpdateLeft(v, u, k, x);
    DotComm(u, v[k := x]);
    DotComm(u, v);
  }

  lemma {:induction false} DotAddLeft(u: Vec, w: Vec, v: Vec)
    requires |u| == |w| == |v|
    ensures Dot(Add(u, w), v) == (Dot(u, v) != Dot(w, v))
  {
    if |u| > 0 {
      assert Add(u, w)[1..] == Add(u[1..], w[1..]);
      DotAddLeft(u[1..], w[1..], v[1..]);
    }
  }

  lemma DotAddRight(u: Vec, v: Vec, w: Vec)
    requires |u| == |v| == |w|
    ensures Dot(u, Add(v, w)) == (Dot(u, v) != Dot(u, w))
  {
    DotAddLeft(v, w, u);
    DotComm(u, Add(v, w));
    DotComm(u, v);
    DotComm(u, w);
  }

  lemma DotScaleLeft(b: bool, u: Vec, v: Vec)
    requires |u| == |v|
    ensures Dot(Scale(b, u), v) == (b && Dot(u, v))
  {
    if !b {
      DotZeroLeft(v);
    }
  }

  // ---------------------------------------------------------------------
  // Products: linearity, associativity, identities
  // ---------------------------------------------------------------------

  /** v·A is the sum of the rows of A that v selects (first row split off). */
  lemma VecMatFirstRow(v: Vec, A: Matrix)
    requires |v| == A.rows > 0
    ensures VecMat(v, A) == Add(Scale(v[0], A.bits[0]), VecMat(v[1..], Tail(A)))
  {
    forall j | 0 <= j < A.cols
      ensures VecMat(v, A)[j] == Add(Scale(v[0], A.bits[0]), VecMat(v[1..], Tail(A)))[j]
    {
      assert Col(A, j)[1..] == Col(Tail(A), j);
    }
  }

  lemma VecMatNoRows(v: Vec, A: Matrix)
    requires |v| == A.rows == 0
    ensures VecMat(v, A) == Zero(A.cols)
  {
  }

  /** The adjoint identity (v·A)·x == v·(A·x), from which associativity follows. */
  lemma {:induction false} Adjoint(v: Vec, A: Matrix, x: Vec)
    requires |v| == A.rows && |x| == A.cols
    ensures Dot(VecMat(v, A), x) == Dot(v, MatVec(A, x))
  {
    if A.rows == 0 {
      VecMatNoRows(v, A);
      DotZeroLeft(x);
    } else {
      VecMatFirstRow(v, A);
      DotAddLeft(Scale(v[0], A.bits[0]), VecMat(v[1..], Tail(A)), x);
      DotScaleLeft(v[0], A.bits[0], x);
      Adjoint(v[1..], Tail(A), x);
      assert MatVec(A, x)[1..] == MatVec(Tail(A), x);
    }
  }

  /** Column j of A·B is A times column j of B. */
  lemma ColMatMul(A: Matrix, B: Matrix, j: nat)
    requires A.cols == B.rows && j < B.cols
    ensures Col(MatMul(A, B), j) == MatVec(A, Col(B, j))
  {
  }

  lemma VecMatAssoc(v: Vec, A: Matrix, B: Matrix)
    requires |v| == A.rows && A.cols == B.rows
    ensures VecMat(VecMat(v, A), B) == VecMat(v, MatMul(A, B))
  {
    forall j | 0 <= j < B.cols
      ensures VecMat(VecMat(v, A), B)[j] == VecMat(v, MatMul(A, B))[j]
    {
      Adjoint(v, A, Col(B, j));
      ColMatMul(A, B, j);
    }
  }

  lemma MatVecAssoc(A: Matrix, B: Matrix, x: Vec)
    requires A.cols == B.rows && |x| == B.cols
    ensures MatVec(MatMul(A, B), x) == MatVec(A, MatVec(B, x))
  {
    forall i | 0 <= i < A.rows
      ensures MatVec(MatMul(A, B), x)[i] == MatVec(A, MatVec(B, x))[i]
    {
      Adjoint(A.bits[i], B, x);
    }
  }

  lemma MatMulAssoc(A: Matrix, B: Matrix, C: Matrix)
    requires A.cols == B.rows && B.cols == C.rows
    ensures MatMul(MatMul(A, B), C) == MatMul(A, MatMul(B, C))
  {
    forall i | 0 <= i < A.rows
      ensures MatMul(MatMul(A, B), C).bits[i] == MatMul(A, MatMul(B, C)).bits[i]
    {
      VecMatAssoc(A.bits[i], B, C);
    }
  }

  lemma VecMatAdd(u: Vec, w: Vec, A: Matrix)
    requires |u| == |w| == A.rows
    ensures VecMat(Add(u, w), A) == Add(VecMat(u, A), VecMat(w, A))
  {
    forall j | 0 <= j < A.cols
      ensures VecMat(Add(u, w), A)[j] == Add(VecMat(u, A), VecMat(w, A))[j]
    {
      DotAddLeft(u, w, Col(A, j));
    }
  }

  lemma MatVecAdd(A: Matrix, x: Vec, y: Vec)
    requires |x| == |y| == A.cols
    ensures MatVec(A, Add(x, y)) == Add(MatVec(A, x), MatVec(A, y))
  {
    forall i | 0 <= i < A.rows
      ensures MatVec(A, Add(x, y))[i] == Add(MatVec(A, x), MatVec(A, y))[i]
    {
      DotAddRight(A.bits[i], x, y);
    }
  }

  lemma MatVecZero(A: Matrix)
    ensures MatVec(A, Zero(A.cols)) == Zero(A.rows)
  {
    forall i | 0 <= i < A.rows
      ensures !MatVec(A, Zero(A.cols))[i]
    {
      DotZeroRight(A.bits[i]);
    }
  }

  /** A unit row vector selects one row. */
  lemma VecMatUnit(p: nat, A: Matrix)
    requires p < A.rows
    ensures VecMat(Unit(A.rows, p), A) == A.bits[p]
  {
    forall j | 0 <= j < A.cols
      ensures VecMat(Unit(A.rows, p), A)[j] == A.bits[p][j]
    {
      DotUnitLeft(p, Col(A, j));
    }
  }

  /** A unit column vector selects one column. */
  lemma MatVecUnit(A: Matrix, p: nat)
    requires p < A.cols
    ensures MatVec(A, Unit(A.cols, p)) == Col(A, p)
  {
    forall i | 0 <= i < A.rows
      ensures MatVec(A, Unit(A.cols, p))[i] == A.bits[i][p]
    {
      DotUnitRight(A.bits[i], p);
    }
  }

  lemma VecMatIdentity(v: Vec)
    ensures VecMat(v, Identity(|v|)) == v
  {
    forall j | 0 <= j < |v|
      ensures VecMat(v, Identity(|v|))[j] == v[j]
    {
      assert Col(Identity(|v|), j) == Unit(|v|, j);
      DotUnitRight(v, j);
    }
  }

  lemma MatVecIdentity(x: Vec)
    ensures MatVec(Identity(|x|), x) == x
  {
    forall i | 0 <= i < |x|
      ensures MatVec(Identity(|x|), x)[i] == x[i]
    {
      DotUnitLeft(i, x);
    }
  }

  lemma MatMulIdentityLeft(A: Matrix)
    ensures MatMul(Identity(A.rows), A) == A
  {
    forall i | 0 <= i < A.rows
      ensures MatMul(Identity(A.rows), A).bits[i] == A.bits[i]
    {
      VecMatUnit(i, A);
    }
  }

  lemma MatMulIdentityRight(A: Matrix)
    ensures MatMul(A, Identity(A.cols)) == A
  {
    forall i | 0 <= i < A.rows
      ensures MatMul(A, Identity(A.cols)).bits[i] == A.bits[i]
    {
      VecMatIdentity(A.bits[i]);
    }
  }

  // ---------------------------------------------------------------------
  // Inverses
  // ---------------------------------------------------------------------

  /** An inverse over GF(2) is unique, so "the" inverse computed by any method is InverseOf. */
  lemma InverseUnique(A: Matrix, B: Matrix, C: Matrix)
    requires IsInverse(A, B) && IsInverse(A, C)
    ensures B == C
  {
    calc {
      B;
      { MatMulIdentityRight(B); }
      MatMul(B, Identity(A.rows));
      MatMul(B, MatMul(A, C));
      { MatMulAssoc(B, A, C); }
      MatMul(MatMul(B, A), C);
      MatMul(Identity(A.rows), C);
      { MatMulIdentityLeft(C); }
      C;
    }
  }

  /** Multiplying by A and then by its inverse gives back the row vector. */
  lemma VecMatInverse(v: Vec, A: Matrix, B: Matrix)
    requires IsInverse(A, B) && |v| == A.rows
    ensures VecMat(VecMat(v, A), B) == v
  {
    VecMatAssoc(v, A, B);
    VecMatIdentity(v);
  }

  // ---------------------------------------------------------------------
  // Weight
  // ---------------------------------------------------------------------

  /** Weight zero means the zero vector. */
  lemma {:induction false} WeightZero(v: Vec)
    ensures Weight(v) == 0 <==> v == Zero(|v|)
  {
    if |v| > 0 {
      WeightZero(v[1..]);
      if v == Zero(|v|) {
        assert v[1..] == Zero(|v| - 1);
      }
      if Weight(v) == 0 {
        assert v == [false] + v[1..];
      }
    }
  }

  /** A vector of weight at most one is zero or a unit vector. */
  lemma {:induction false} WeightAtMostOne(e: Vec) returns (p: nat)
    requires Weight(e) <= 1
    ensures e == Zero(|e|) || (p < |e| && e == Unit(|e|, p))
  {
    p := 0;
    if |e| == 0 {
    } else if e[0] {
      WeightZero(e[1..]);
      assert e == [true] + e[1..];
      assert e == Unit(|e|, 0);
    } else {
      var q := WeightAtMostOne(e[1..]);
      assert e == [false] + e[1..];
      if e[1..] == Zero(|e| - 1) {
        assert e == Zero(|e|);
      } else {
        p := q + 1;
        assert e == Unit(|e|, p);
      }
    }
  }

  lemma {:induction false} UnitWeight(n: nat, p: nat)
    requires p < n
    ensures Weight(Unit(n, p)) == 1
  {
    if p == 0 {
      assert Unit(n, p)[1..] == Zero(n - 1);
      WeightZero(Zero(n - 1));
    } else {
      assert Unit(n, p)[1..] == Unit(n - 1, p - 1);
      UnitWeight(n - 1, p - 1);
    }
  }
}
