/**
 * The parts of the McEliece scheme that do not depend on the component code:
 * the block-diagonal generator of L copies of a small code, its construction by
 * block assignment, error vectors with ones at chosen positions, and decryption
 * c' = c·P⁻¹, m' = the decoded 15-bit blocks of c', m = m'·S⁻¹.
 */
module McEliece {
  import opened Wrappers
  import opened GF2

  /** The exceptions numpy and the implementation raise, as values. */
  datatype Error =
    | DimensionMismatch     // a product of arrays whose shapes do not fit
    | IndexOutOfRange       // an error position past the end of the codeword
    | SampleTooLarge        // choosing t positions without replacement from fewer than t
    | NotInvertible         // `np.linalg.inv` on a singular or non-square matrix
    | NothingToConcatenate  // `np.concatenate([])`: a ciphertext shorter than one block

  // ---------------------------------------------------------------------
  // Block arithmetic
  // ---------------------------------------------------------------------

  /**
   * k·L as L-fold addition. Block offsets are stated with it, which keeps every
   * offset linear for the solver; TimesIsProduct connects it to `*`.
   */
  function Times(k: nat, L: nat): nat
  {
    if L == 0 then 0 else Times(k, L - 1) + k
  }

  lemma {:induction false} TimesIsProduct(k: nat, L: nat)
    ensures Times(k, L) == k * L
  {
    if L > 0 {
      TimesIsProduct(k, L - 1);
      assert k * L == k * (L - 1) + k;
    }
  }

  lemma {:induction false} TimesMono(k: nat, x: nat, y: nat)
    requires x <= y
    ensures Times(k, x) <= Times(k, y)
  {
    if x < y {
      TimesMono(k, x, y - 1);
    }
  }

  /** Offset k·i + a (a < k) lies before block m when i < m, and past block m when i > m. */
  lemma {:induction false} BlockOffset(k: nat, i: nat, a: nat, m: nat)
    requires a < k
    ensures i < m ==> Times(k, i) + a < Times(k, m) && Times(k, i + 1) <= Times(k, m)
    ensures i > m ==> Times(k, i) + a >= Times(k, m) + k
  {
    if i < m {
      BlockOffset(k, i, a, m - 1);
    } else if i > m {
      BlockOffset(k, i - 1, a, m);
    }
  }

  /** Every offset below k·L is k·i + a for a block i < L and an a < k. */
  lemma {:induction false} BlockOf(k: nat, L: nat, r: nat) returns (i: nat, a: nat)
    requires r < Times(k, L)
    ensures i < L && a < k && r == Times(k, i) + a
  {
    if r < Times(k, L - 1) {
      i, a := BlockOf(k, L - 1, r);
    } else {
      i, a := L - 1, r - Times(k, L - 1);
    }
  }

  // ---------------------------------------------------------------------
  // Block-diagonal generator matrices
  // ---------------------------------------------------------------------

  /** Row r of [[A, 0], [0, B]]. */
  function DiagJoinRow(A: Matrix, B: Matrix, r: nat): (row: Vec)
    requires r < A.rows + B.rows
    ensures |row| == A.cols + B.cols
  {
    if r < A.rows then
      assert |A.bits[r]| == A.cols;
      A.bits[r] + Zero(B.cols)
    else
      assert |B.bits[r - A.rows]| == B.cols;
      Zero(A.cols) + B.bits[r - A.rows]
  }

  /** [[A, 0], [0, B]]. */
  function DiagJoin(A: Matrix, B: Matrix): (M: Matrix)
    ensures M.rows == A.rows + B.rows && M.cols == A.cols + B.cols
  {
    BitMatrix(A.rows + B.rows, A.cols + B.cols,
      seq(A.rows + B.rows, r requires 0 <= r < A.rows + B.rows => DiagJoinRow(A, B, r)))
  }

  /** Entry (r, c) of [[A, 0], [0, B]]: A's entry top left, B's bottom right, zero elsewhere. */
  lemma DiagJoinEntry(A: Matrix, B: Matrix, r: nat, c: nat)
    requires r < A.rows + B.rows && c < A.cols + B.cols
    ensures DiagJoin(A, B).bits[r][c] ==
      if r < A.rows then c < A.cols && A.bits[r][c]
      else c >= A.cols && B.bits[r - A.rows][c - A.cols]
  {
    assert DiagJoin(A, B).bits[r] == DiagJoinRow(A, B, r);
  }

  /**
   * Row r of L copies of G along the diagonal: a row of the first L - 1 copies
   * followed by G.cols zeros, or the zeros of the first L - 1 copies followed by a
   * row of the last copy.
   */
  function BlockRow(G: Matrix, L: nat, r: nat): (row: Vec)
    requires r < Times(G.rows, L)
    ensures |row| == Times(G.cols, L)
  {
    if r < Times(G.rows, L - 1) then BlockRow(G, L - 1, r) + Zero(G.cols)
    else
      assert |G.bits[r - Times(G.rows, L - 1)]| == G.cols;
      Zero(Times(G.cols, L - 1)) + G.bits[r - Times(G.rows, L - 1)]
  }

  /** L copies of G along the diagonal, zero elsewhere: the generator of L independent blocks. */
  function BlockDiagonal(G: Matrix, L: nat): (M: Matrix)
    ensures M.rows == Times(G.rows, L) && M.cols == Times(G.cols, L)
  {
    BitMatrix(Times(G.rows, L), Times(G.cols, L),
      seq(Times(G.rows, L), r requires 0 <= r < Times(G.rows, L) => BlockRow(G, L, r)))
  }

  /** The L-block matrix is the (L-1)-block matrix joined diagonally with one more G. */
  lemma BlockDiagonalSplit(G: Matrix, L: nat)
    requires 0 < L
    ensures BlockDiagonal(G, L) == DiagJoin(BlockDiagonal(G, L - 1), G)
  {
    var M, J := BlockDiagonal(G, L), DiagJoin(BlockDiagonal(G, L - 1), G);
    forall r | 0 <= r < M.rows
      ensures M.bits[r] == J.bits[r]
    {
      assert M.bits[r] == BlockRow(G, L, r);
      assert J.bits[r] == DiagJoinRow(BlockDiagonal(G, L - 1), G, r);
    }
  }

  lemma ZeroConcat(a: nat, b: nat)
    ensures Zero(a) + Zero(b) == Zero(a + b)
  {
  }

  lemma BlockRowStep(G: Matrix, L: nat, i: nat, a: nat)
    requires i < L - 1 && a < G.rows
    requires Times(G.rows, i) + a < Times(G.rows, L - 1)
    requires BlockRow(G, L - 1, Times(G.rows, i) + a) ==
      Zero(Times(G.cols, i)) + G.bits[a] + Zero(Times(G.cols, L - 1 - 1 - i))
    ensures BlockRow(G, L, Times(G.rows, i) + a) ==
      Zero(Times(G.cols, i)) + G.bits[a] + Zero(Times(G.cols, L - 1 - i))
  {
    assert Times(G.cols, L - 1 - i) == Times(G.cols, L - 1 - 1 - i) + G.cols;
    ZeroConcat(Times(G.cols, L - 1 - 1 - i), G.cols);
  }

  lemma {:induction false} BlockRowIs(G: Matrix, L: nat, i: nat, a: nat)
    requires i < L && a < G.rows
    ensures Times(G.rows, i) + a < Times(G.rows, L)
    ensures BlockRow(G, L, Times(G.rows, i) + a) ==
      Zero(Times(G.cols, i)) + G.bits[a] + Zero(Times(G.cols, L - 1 - i))
  {
    BlockOffset(G.rows, i, a, L - 1);
    if i < L - 1 {
      BlockRowIs(G, L - 1, i, a);
      BlockRowStep(G, L, i, a);
    } else {
      assert Times(G.cols, L - 1 - i) == 0;
    }
  }

  /**
   * Row a of block row i of the block-diagonal matrix: zero in the column blocks
   * before i, row a of G in column block i, zero in the column blocks after i.
   */
  lemma BlockDiagonalRow(G: Matrix, L: nat, i: nat, a: nat)
    requires i < L && a < G.rows
    ensures Times(G.rows, i) + a < Times(G.rows, L)
    ensures BlockDiagonal(G, L).bits[Times(G.rows, i) + a] ==
      Zero(Times(G.cols, i)) + G.bits[a] + Zero(Times(G.cols, L - 1 - i))
  {
    BlockRowIs(G, L, i, a);
  }

  /** Row vector times [[A, 0], [0, B]] is the two halves multiplied separately, side by side. */
  lemma VecMatDiagJoin(u: Vec, A: Matrix, B: Matrix)
    requires |u| == A.rows + B.rows
    ensures VecMat(u, DiagJoin(A, B)) == VecMat(u[..A.rows], A) + VecMat(u[A.rows..], B)
  {
    var M := DiagJoin(A, B);
    var u1, u2 := u[..A.rows], u[A.rows..];
    assert u == u1 + u2;
    forall c | 0 <= c < M.cols
      ensures VecMat(u, M)[c] == (VecMat(u1, A) + VecMat(u2, B))[c]
    {
      if c < A.cols {
        forall r | 0 <= r < M.rows
          ensures Col(M, c)[r] == (Col(A, c) + Zero(B.rows))[r]
        {
          DiagJoinEntry(A, B, r, c);
        }
        assert Col(M, c) == Col(A, c) + Zero(B.rows);
        DotAppend(u1, u2, Col(A, c), Zero(B.rows));
        DotZeroRight(u2);
      } else {
        forall r | 0 <= r < M.rows
          ensures Col(M, c)[r] == (Zero(A.rows) + Col(B, c - A.cols))[r]
        {
          DiagJoinEntry(A, B, r, c);
        }
        assert Col(M, c) == Zero(A.rows) + Col(B, c - A.cols);
        DotAppend(u1, u2, Zero(A.rows), Col(B, c - A.cols));
        DotZeroRight(u1);
      }
    }
  }

  // ---------------------------------------------------------------------
  // Building the block-diagonal matrix by block assignment
  // ---------------------------------------------------------------------

  /** Row r of A embedded in the top-left corner of an R x C zero matrix. */
  function EmbedRow(A: Matrix, R: nat, C: nat, r: nat): (row: Vec)
    requires A.rows <= R && A.cols <= C && r < R
    ensures |row| == C
  {
    if r < A.rows then
      assert |A.bits[r]| == A.cols;
      A.bits[r] + Zero(C - A.cols)
    else Zero(C)
  }

  /** A embedded in the top-left corner of an R x C zero matrix. */
  function Embed(A: Matrix, R: nat, C: nat): (M: Matrix)
    requires A.rows <= R && A.cols <= C
    ensures M.rows == R && M.cols == C
  {
    BitMatrix(R, C, seq(R, r requires 0 <= r < R => EmbedRow(A, R, C, r)))
  }

  /** Row r of M after `M[r0:r0+B.rows, c0:c0+B.cols] = B`. */
  function WithBlockRow(M: Matrix, r0: nat, c0: nat, B: Matrix, r: nat): (row: Vec)
    requires r0 + B.rows <= M.rows && c0 + B.cols <= M.cols && r < M.rows
    ensures |row| == M.cols
  {
    assert |M.bits[r]| == M.cols;
    if r0 <= r < r0 + B.rows then
      assert |B.bits[r - r0]| == B.cols;
      M.bits[r][..c0] + B.bits[r - r0] + M.bits[r][c0 + B.cols..]
    else M.bits[r]
  }

  /** `M[r0:r0+B.rows, c0:c0+B.cols] = B`: the rectangle is overwritten, the rest kept. */
  function WithBlock(M: Matrix, r0: nat, c0: nat, B: Matrix): (M': Matrix)
    requires r0 + B.rows <= M.rows && c0 + B.cols <= M.cols
    ensures M'.rows == M.rows && M'.cols == M.cols
  {
    BitMatrix(M.rows, M.cols, seq(M.rows, r requires 0 <= r < M.rows => WithBlockRow(M, r0, c0, B, r)))
  }

  /** After the block write, the rectangle holds B and every other entry is unchanged. */
  lemma WithBlockEntry(M: Matrix, r0: nat, c0: nat, B: Matrix, r: nat, c: nat)
    requires r0 + B.rows <= M.rows && c0 + B.cols <= M.cols && r < M.rows && c < M.cols
    ensures WithBlock(M, r0, c0, B).bits[r][c] ==
      if r0 <= r < r0 + B.rows && c0 <= c < c0 + B.cols then B.bits[r - r0][c - c0] else M.bits[r][c]
  {
    assert WithBlock(M, r0, c0, B).bits[r] == WithBlockRow(M, r0, c0, B, r);
    assert |M.bits[r]| == M.cols;
  }

  /** Writing B just past the corner of an embedded A gives the embedded [[A, 0], [0, B]]. */
  lemma EmbedStep(A: Matrix, B: Matrix, R: nat, C: nat)
    requires A.rows + B.rows <= R && A.cols + B.cols <= C
    ensures WithBlock(Embed(A, R, C), A.rows, A.cols, B) == Embed(DiagJoin(A, B), R, C)
  {
    var lhs := WithBlock(Embed(A, R, C), A.rows, A.cols, B);
    var rhs := Embed(DiagJoin(A, B), R, C);
    forall r, c | 0 <= r < R && 0 <= c < C
      ensures lhs.bits[r][c] == rhs.bits[r][c]
    {
      assert rhs.bits[r] == EmbedRow(DiagJoin(A, B), R, C, r);
      assert Embed(A, R, C).bits[r] == EmbedRow(A, R, C, r);
      WithBlockEntry(Embed(A, R, C), A.rows, A.cols, B, r, c);
      if r < A.rows + B.rows && c < A.cols + B.cols {
        DiagJoinEntry(A, B, r, c);
      }
    }
    forall r | 0 <= r < R
      ensures lhs.bits[r] == rhs.bits[r]
    {
      assert forall c :: 0 <= c < C ==> lhs.bits[r][c] == rhs.bits[r][c];
    }
  }

  lemma EmbedFull(A: Matrix)
    ensures Embed(A, A.rows, A.cols) == A
  {
    forall r | 0 <= r < A.rows
      ensures Embed(A, A.rows, A.cols).bits[r] == A.bits[r]
    {
      assert |A.bits[r]| == A.cols;
      assert Embed(A, A.rows, A.cols).bits[r] == EmbedRow(A, A.rows, A.cols, r);
      assert EmbedRow(A, A.rows, A.cols, r) == A.bits[r] + [];
    }
  }

  /** One pass of the loop: copying G into diagonal block i extends the embedded prefix. */
  lemma BuildStep(G: Matrix, L: nat, i: nat, R: nat, C: nat)
    requires i < L && R == Times(G.rows, L) && C == Times(G.cols, L)
    ensures Times(G.rows, i) + G.rows <= R && Times(G.cols, i) + G.cols <= C
    ensures WithBlock(Embed(BlockDiagonal(G, i), R, C), Times(G.rows, i), Times(G.cols, i), G)
      == Embed(BlockDiagonal(G, i + 1), R, C)
  {
    TimesMono(G.rows, i + 1, L);
    TimesMono(G.cols, i + 1, L);
    EmbedStep(BlockDiagonal(G, i), G, R, C);
    BlockDiagonalSplit(G, i + 1);
  }

  /**
   * The key-generation loop: start from the (k·L) x (n·L) zero matrix and copy G
   * into rows i·k..(i+1)·k, columns i·n..(i+1)·n for each i < L.
   */
  method BuildBlockDiagonal(G: Matrix, L: nat) returns (Gtotal: Matrix)
    ensures Gtotal == BlockDiagonal(G, L)
  {
    var k, n := G.rows, G.cols;
    var kTotal, nTotal := k * L, n * L;
    TimesIsProduct(k, L);
    TimesIsProduct(n, L);
    Gtotal := ZeroMatrix(kTotal, nTotal);
    assert Gtotal == Embed(BlockDiagonal(G, 0), kTotal, nTotal);
    for i := 0 to L
      invariant Times(k, i) <= kTotal && Times(n, i) <= nTotal
      invariant Gtotal == Embed(BlockDiagonal(G, i), kTotal, nTotal)
    {
      var rowStart, colStart := i * k, i * n;
      TimesIsProduct(k, i);
      TimesIsProduct(n, i);
      assert rowStart == Times(k, i) && colStart == Times(n, i);
      BuildStep(G, L, i, kTotal, nTotal);
      Gtotal := WithBlock(Gtotal, rowStart, colStart, G);
    }
    EmbedFull(BlockDiagonal(G, L));
  }

  // ---------------------------------------------------------------------
  // Error vectors
  // ---------------------------------------------------------------------

  /** Block i of a vector cut into n-bit pieces: bits n·i .. n·i + n - 1. */
  function Block(c: Vec, n: nat, i: nat): (w: Vec)
    requires Times(n, i) + n <= |c|
    ensures |w| == n
  {
    c[Times(n, i) .. Times(n, i) + n]
  }

  /** `error = zeros(n); error[pos] = 1` for each pos in positions, in order. */
  function Indicator(n: nat, positions: seq<nat>): (e: Vec)
    requires forall i :: 0 <= i < |positions| ==> positions[i] < n
    ensures |e| == n
    ensures forall p :: 0 <= p < n ==> (e[p] <==> p in positions)
  {
    if |positions| == 0 then Zero(n)
    else Indicator(n, positions[..|positions| - 1])[positions[|positions| - 1] := true]
  }

  /** No position occurs twice. */
  predicate Distinct(positions: seq<nat>) {
    forall i, i' :: 0 <= i < |positions| && 0 <= i' < |positions| && positions[i] == positions[i'] ==> i == i'
  }

  /** Position i lies in block i, as `randint(i * 15, (i + 1) * 15)` draws it. */
  predicate OnePerBlock(positions: seq<nat>) {
    forall i :: 0 <= i < |positions| ==> Times(15, i) <= positions[i] < Times(15, i) + 15
  }

  lemma {:induction false} WeightSetBit(v: Vec, p: nat)
    requires p < |v| && !v[p]
    ensures Weight(v[p := true]) == Weight(v) + 1
  {
    if p > 0 {
      assert v[p := true][1..] == v[1..][p - 1 := true];
      WeightSetBit(v[1..], p - 1);
    } else {
      assert v[p := true][1..] == v[1..];
    }
  }

  /** Ones at t distinct positions give a vector of weight t. */
  lemma {:induction false} IndicatorWeight(n: nat, positions: seq<nat>)
    requires forall i :: 0 <= i < |positions| ==> positions[i] < n
    requires Distinct(positions)
    ensures Weight(Indicator(n, positions)) == |positions|
  {
    if |positions| == 0 {
      WeightZero(Zero(n));
    } else {
      var front := positions[..|positions| - 1];
      var last := positions[|positions| - 1];
      IndicatorWeight(n, front);
      assert last !in front;
      WeightSetBit(Indicator(n, front), last);
    }
  }

  /** Positions drawn one per block are distinct. */
  lemma OnePerBlockDistinct(positions: seq<nat>)
    requires OnePerBlock(positions)
    ensures Distinct(positions)
  {
    forall i, i' | 0 <= i < |positions| && 0 <= i' < |positions| && i < i'
      ensures positions[i] != positions[i']
    {
      BlockOffset(15, i, positions[i] - Times(15, i), i');
    }
  }

  /**
   * With one position drawn in each of the first |positions| blocks, block j of the
   * error vector is the unit vector at the drawn offset for j < |positions| and zero
   * after.
   */
  lemma IndicatorBlock(n: nat, positions: seq<nat>, j: nat)
    requires forall i :: 0 <= i < |positions| ==> positions[i] < n
    requires OnePerBlock(positions) && Times(15, j) + 15 <= n
    ensures j < |positions| ==> Block(Indicator(n, positions), 15, j) == Unit(15, positions[j] - Times(15, j))
    ensures j >= |positions| ==> Block(Indicator(n, positions), 15, j) == Zero(15)
  {
    var e := Indicator(n, positions);
    forall b | 0 <= b < 15
      ensures Block(e, 15, j)[b] == (j < |positions| && positions[j] == Times(15, j) + b)
    {
      assert Block(e, 15, j)[b] == e[Times(15, j) + b];
      OnlyDrawInBlock(positions, j, b);
    }
  }

  /** Only the draw for block j can land in block j. */
  lemma OnlyDrawInBlock(positions: seq<nat>, j: nat, b: nat)
    requires OnePerBlock(positions) && b < 15
    ensures Times(15, j) + b in positions <==> j < |positions| && positions[j] == Times(15, j) + b
  {
    if Times(15, j) + b in positions {
      var i :| 0 <= i < |positions| && positions[i] == Times(15, j) + b;
      BlockOffset(15, i, positions[i] - Times(15, i), j);
      BlockOffset(15, j, b, i);
    }
  }

  /** The controlled error vector has exactly one 1 in each of the first |positions| blocks. */
  lemma OneErrorPerBlock(n: nat, positions: seq<nat>, j: nat)
    requires forall i :: 0 <= i < |positions| ==> positions[i] < n
    requires OnePerBlock(positions) && Times(15, j) + 15 <= n
    ensures Weight(Block(Indicator(n, positions), 15, j)) == if j < |positions| then 1 else 0
  {
    IndicatorBlock(n, positions, j);
    if j < |positions| {
      UnitWeight(15, positions[j] - Times(15, j));
    } else {
      WeightZero(Zero(15));
    }
  }

  // ---------------------------------------------------------------------
  // Decryption
  // ---------------------------------------------------------------------

  /** The decoder accepts every 15-bit word. */
  ghost predicate DecodesBlocks(dec: Vec --> Vec) {
    forall w: Vec :: |w| == 15 ==> dec.requires(w)
  }

  /** The decoded blocks 0..L-1 of c, concatenated in order. */
  function DecodeBlocks(c: Vec, L: nat, dec: Vec --> Vec): Vec
    requires Times(15, L) <= |c| && DecodesBlocks(dec)
  {
    if L == 0 then [] else DecodeBlocks(c, L - 1, dec) + dec(Block(c, 15, L - 1))
  }

  /** `np.concatenate(blocks)` for a non-empty list; the empty list gives []. */
  function Concat(blocks: seq<Vec>): Vec
  {
    if |blocks| == 0 then [] else Concat(blocks[..|blocks| - 1]) + blocks[|blocks| - 1]
  }

  /** Appending the decoding of block i to the decodings of blocks 0..i-1. */
  lemma ConcatDecodedStep(c: Vec, i: nat, dec: Vec --> Vec, blocks: seq<Vec>, m: Vec)
    requires DecodesBlocks(dec) && Times(15, i) + 15 <= |c|
    requires Concat(blocks) == DecodeBlocks(c, i, dec) && m == dec(Block(c, 15, i))
    ensures Concat(blocks + [m]) == DecodeBlocks(c, i + 1, dec)
  {
    assert (blocks + [m])[..|blocks|] == blocks;
  }

  /** Only the first L blocks matter. */
  lemma {:induction false} DecodeBlocksPrefix(c: Vec, d: Vec, L: nat, dec: Vec --> Vec)
    requires Times(15, L) <= |c| && Times(15, L) <= |d| && DecodesBlocks(dec)
    requires c[..Times(15, L)] == d[..Times(15, L)]
    ensures DecodeBlocks(c, L, dec) == DecodeBlocks(d, L, dec)
  {
    if L > 0 {
      var m := Times(15, L - 1);
      assert c[..m] == d[..m] by {
        assert c[..m] == c[..Times(15, L)][..m];
        assert d[..m] == d[..Times(15, L)][..m];
      }
      assert Block(c, 15, L - 1) == c[..Times(15, L)][m..];
      assert Block(d, 15, L - 1) == d[..Times(15, L)][m..];
      DecodeBlocksPrefix(c, d, L - 1, dec);
    }
  }

  /** A decoder that always returns k bits yields k·L bits for L blocks. */
  lemma {:induction false} DecodeBlocksLength(c: Vec, L: nat, dec: Vec --> Vec, k: nat)
    requires Times(15, L) <= |c| && DecodesBlocks(dec)
    requires forall w: Vec :: |w| == 15 ==> |dec(w)| == k
    ensures |DecodeBlocks(c, L, dec)| == Times(k, L)
  {
    if L > 0 {
      DecodeBlocksLength(c, L - 1, dec, k);
    }
  }

  /**
   * `decrypt`: c' = c·P⁻¹, L = len(c') // 15, m' = the decoded blocks of c', m = m'·S⁻¹,
   * with each numpy failure in the order the implementation meets it.
   */
  ghost function Decrypted(c: Vec, S: Matrix, P: Matrix, dec: Vec --> Vec): Result<Vec, Error>
    requires DecodesBlocks(dec)
  {
    if !Invertible(P) then Err(NotInvertible)
    else if |c| != P.rows then Err(DimensionMismatch)
    else
      var cPrime := VecMat(c, InverseOf(P));
      var L := |cPrime| / 15;
      TimesIsProduct(15, L);
      if L == 0 then Err(NothingToConcatenate)
      else
        var mPrime := DecodeBlocks(cPrime, L, dec);
        if !Invertible(S) then Err(NotInvertible)
        else if |mPrime| != S.rows then Err(DimensionMismatch)
        else Ok(VecMat(mPrime, InverseOf(S)))
  }

  /** Undoing the permutation: c'·P = c for c' = c·P⁻¹. */
  lemma UnpermuteInverts(c: Vec, P: Matrix)
    requires Invertible(P) && |c| == P.rows
    ensures |VecMat(c, InverseOf(P))| == |c|
    ensures VecMat(VecMat(c, InverseOf(P)), P) == c
  {
    var Q := InverseOf(P);
    assert IsInverse(Q, P);
    VecMatInverse(c, Q, P);
  }

  /**
   * The shape of a decryption: with a decoder returning k bits per block, it succeeds
   * exactly when P and S are invertible, c fits P, c holds at least one block and S
   * is (k·L) x (k·L) for L = len(c) // 15; the plaintext then has k·L bits.
   */
  lemma DecryptedShape(c: Vec, S: Matrix, P: Matrix, dec: Vec --> Vec, k: nat)
    requires DecodesBlocks(dec)
    requires forall w: Vec :: |w| == 15 ==> |dec(w)| == k
    ensures Decrypted(c, S, P, dec).Ok? <==>
      (Invertible(P) && |c| == P.rows && |c| / 15 > 0 && Invertible(S) && S.rows == k * (|c| / 15))
    ensures Decrypted(c, S, P, dec).Ok? ==> |Decrypted(c, S, P, dec).value| == k * (|c| / 15)
  {
    if Invertible(P) && |c| == P.rows {
      var cPrime := VecMat(c, InverseOf(P));
      assert |cPrime| == |c|;
      TimesIsProduct(15, |c| / 15);
      TimesIsProduct(k, |c| / 15);
      if |c| / 15 > 0 {
        DecodeBlocksLength(cPrime, |c| / 15, dec, k);
      }
    }
  }

  /** The decoder recovers the message of any codeword of G with at most t flipped bits. */
  ghost predicate Corrects(G: Matrix, t: nat, dec: Vec --> Vec)
    requires DecodesBlocks(dec)
  {
    && G.cols == 15
    && forall v: Vec, w: Vec :: |v| == G.rows && |w| == 15 && Weight(w) <= t ==>
      dec(Add(VecMat(v, G), w)) == v
  }

  /** Every 15-bit block of e has at most t ones. */
  ghost predicate BlockWeightsAtMost(e: Vec, t: nat) {
    forall i: nat :: Times(15, i) + 15 <= |e| ==> Weight(Block(e, 15, i)) <= t
  }

  /** Block i of y decodes to block i of u. */
  ghost predicate BlockDecodesTo(y: Vec, u: Vec, k: nat, i: nat, dec: Vec --> Vec) {
    DecodesBlocks(dec) && Times(k, i) + k <= |u| && Times(15, i) + 15 <= |y| &&
    dec(Block(y, 15, i)) == Block(u, k, i)
  }

  /** Decoding the first L of M blocks to their message parts gives the first L message parts. */
  lemma {:induction false} DecodeBlocksUpTo(y: Vec, u: Vec, k: nat, L: nat, M: nat, dec: Vec --> Vec)
    requires DecodesBlocks(dec) && L <= M && Times(15, M) <= |y| && |u| == Times(k, M)
    requires forall i: nat :: i < M ==> BlockDecodesTo(y, u, k, i, dec)
    ensures Times(15, L) <= |y| && Times(k, L) <= |u|
    ensures DecodeBlocks(y, L, dec) == u[..Times(k, L)]
  {
    TimesMono(15, L, M);
    TimesMono(k, L, M);
    if L > 0 {
      DecodeBlocksUpTo(y, u, k, L - 1, M, dec);
      assert BlockDecodesTo(y, u, k, L - 1, dec);
      assert u[..Times(k, L)] == u[..Times(k, L - 1)] + Block(u, k, L - 1);
    }
  }

  /** Decoding every block to its message part decodes the whole word to the message. */
  lemma DecodeBlocksAll(y: Vec, u: Vec, k: nat, L: nat, dec: Vec --> Vec)
    requires DecodesBlocks(dec) && Times(15, L) <= |y| && |u| == Times(k, L)
    requires forall i: nat :: i < L ==> BlockDecodesTo(y, u, k, i, dec)
    ensures DecodeBlocks(y, L, dec) == u
  {
    DecodeBlocksUpTo(y, u, k, L, L, dec);
    assert u[..Times(k, L)] == u;
  }

  /** Adding two words adds their blocks. */
  lemma BlockAdd(a: Vec, b: Vec, n: nat, i: nat)
    requires |a| == |b| && Times(n, i) + n <= |a|
    ensures Block(Add(a, b), n, i) == Add(Block(a, n, i), Block(b, n, i))
  {
  }

  /** Columns of block i of [[A, 0], [0, B]] that lie in A's columns come from A's part. */
  lemma VecMatBlockFront(u: Vec, A: Matrix, B: Matrix, M: Matrix, n: nat, i: nat)
    requires M == DiagJoin(A, B) && |u| == A.rows + B.rows && Times(n, i) + n <= A.cols
    ensures Block(VecMat(u, M), n, i) == Block(VecMat(u[..A.rows], A), n, i)
  {
    VecMatDiagJoin(u, A, B);
  }

  /** The last column block of [[A, 0], [0, B]] comes from B's part. */
  lemma VecMatBlockBack(u: Vec, A: Matrix, B: Matrix, M: Matrix, i: nat)
    requires M == DiagJoin(A, B) && |u| == A.rows + B.rows && Times(B.cols, i) == A.cols
    ensures Block(VecMat(u, M), B.cols, i) == VecMat(u[A.rows..], B)
  {
    VecMatDiagJoin(u, A, B);
  }

  lemma CodewordBlockStep(G: Matrix, L: nat, u: Vec, i: nat)
    requires i < L - 1 && |u| == Times(G.rows, L)
    requires Times(G.rows, i) + G.rows <= Times(G.rows, L - 1)
    requires Times(G.cols, i) + G.cols <= Times(G.cols, L - 1)
    requires Block(VecMat(u[..Times(G.rows, L - 1)], BlockDiagonal(G, L - 1)), G.cols, i) ==
      VecMat(Block(u[..Times(G.rows, L - 1)], G.rows, i), G)
    ensures Times(G.cols, i) + G.cols <= Times(G.cols, L)
    ensures Block(VecMat(u, BlockDiagonal(G, L)), G.cols, i) == VecMat(Block(u, G.rows, i), G)
  {
    FrontColumnBlock(G, L, u, i);
    assert Block(u[..Times(G.rows, L - 1)], G.rows, i) == Block(u, G.rows, i);
  }

  lemma FrontColumnBlock(G: Matrix, L: nat, u: Vec, i: nat)
    requires i < L - 1 && |u| == Times(G.rows, L)
    requires Times(G.rows, L - 1) <= Times(G.rows, L)
    requires Times(G.cols, i) + G.cols <= Times(G.cols, L - 1)
    ensures Block(VecMat(u, BlockDiagonal(G, L)), G.cols, i) ==
      Block(VecMat(u[..Times(G.rows, L - 1)], BlockDiagonal(G, L - 1)), G.cols, i)
  {
    BlockDiagonalSplit(G, L);
    VecMatBlockFront(u, BlockDiagonal(G, L - 1), G, BlockDiagonal(G, L), G.cols, i);
  }

  lemma LastColumnBlock(G: Matrix, L: nat, u: Vec)
    requires 0 < L && |u| == Times(G.rows, L)
    ensures Block(VecMat(u, BlockDiagonal(G, L)), G.cols, L - 1) == VecMat(u[Times(G.rows, L - 1)..], G)
  {
    BlockDiagonalSplit(G, L);
    VecMatBlockBack(u, BlockDiagonal(G, L - 1), G, BlockDiagonal(G, L), L - 1);
  }

  lemma CodewordBlockLast(G: Matrix, L: nat, u: Vec)
    requires 0 < L && |u| == Times(G.rows, L)
    ensures Block(VecMat(u, BlockDiagonal(G, L)), G.cols, L - 1) == VecMat(Block(u, G.rows, L - 1), G)
  {
    LastBlock(u, G.rows, L);
    LastColumnBlock(G, L, u);
  }

  lemma LastBlock(u: Vec, k: nat, L: nat)
    requires 0 < L && |u| == Times(k, L)
    ensures Times(k, L - 1) + k == |u|
    ensures Block(u, k, L - 1) == u[Times(k, L - 1)..]
  {
  }

  /** Block i of a block-diagonal codeword is the codeword of the message's block i under G. */
  lemma {:induction false} CodewordBlock(G: Matrix, L: nat, u: Vec, i: nat)
    requires i < L && |u| == Times(G.rows, L)
    ensures Times(G.rows, i) + G.rows <= |u| && Times(G.cols, i) + G.cols <= Times(G.cols, L)
    ensures Block(VecMat(u, BlockDiagonal(G, L)), G.cols, i) == VecMat(Block(u, G.rows, i), G)
  {
    TimesMono(G.rows, i + 1, L);
    TimesMono(G.cols, i + 1, L);
    if i < L - 1 {
      TimesMono(G.rows, i + 1, L - 1);
      TimesMono(G.cols, i + 1, L - 1);
      TimesMono(G.rows, L - 1, L);
      CodewordBlock(G, L - 1, u[..Times(G.rows, L - 1)], i);
      CodewordBlockStep(G, L, u, i);
    } else {
      CodewordBlockLast(G, L, u);
    }
  }

  /** One noisy block decodes to its message part. */
  lemma NoisyBlockDecodes(G: Matrix, L: nat, u: Vec, e: Vec, t: nat, dec: Vec --> Vec, i: nat)
    requires DecodesBlocks(dec) && Corrects(G, t, dec)
    requires i < L && |u| == Times(G.rows, L) && |e| == Times(15, L) && BlockWeightsAtMost(e, t)
    ensures Times(G.rows, i) + G.rows <= |u| && Times(15, i) + 15 <= |e|
    ensures dec(Block(Add(VecMat(u, BlockDiagonal(G, L)), e), 15, i)) == Block(u, G.rows, i)
  {
    assert Block(Add(VecMat(u, BlockDiagonal(G, L)), e), 15, i) ==
      Add(VecMat(Block(u, G.rows, i), G), Block(e, 15, i)) by {
      CodewordBlock(G, L, u, i);
      BlockAdd(VecMat(u, BlockDiagonal(G, L)), e, 15, i);
    }
    assert Weight(Block(e, 15, i)) <= t;
  }

  /** Block-wise decoding undoes the block-diagonal code when no block has more than t errors. */
  lemma DecodeBlockCodewords(G: Matrix, L: nat, u: Vec, e: Vec, t: nat, dec: Vec --> Vec)
    requires DecodesBlocks(dec) && Corrects(G, t, dec)
    requires |u| == Times(G.rows, L) && |e| == Times(15, L) && BlockWeightsAtMost(e, t)
    ensures DecodeBlocks(Add(VecMat(u, BlockDiagonal(G, L)), e), L, dec) == u
  {
    forall i: nat | i < L
      ensures BlockDecodesTo(Add(VecMat(u, BlockDiagonal(G, L)), e), u, G.rows, i, dec)
    {
      NoisyBlockDecodes(G, L, u, e, t, dec, i);
    }
    DecodeBlocksAll(Add(VecMat(u, BlockDiagonal(G, L)), e), u, G.rows, L, dec);
  }

  /**
   * The scheme's correctness: a message scrambled by S, encoded with the block-diagonal
   * generator, hit by at most t errors per block and permuted by P decrypts to itself.
   */
  lemma DecryptRoundTrip(msg: Vec, S: Matrix, G: Matrix, L: nat, P: Matrix, e: Vec, t: nat, dec: Vec --> Vec)
    requires DecodesBlocks(dec) && Corrects(G, t, dec)
    requires 0 < L && Invertible(S) && S.rows == Times(G.rows, L) && |msg| == S.rows
    requires Invertible(P) && P.rows == Times(15, L)
    requires |e| == Times(15, L) && BlockWeightsAtMost(e, t)
    ensures Decrypted(VecMat(Add(VecMat(VecMat(msg, S), BlockDiagonal(G, L)), e), P), S, P, dec) == Ok(msg)
  {
    var u := VecMat(msg, S);
    var y := Add(VecMat(u, BlockDiagonal(G, L)), e);
    var Pinv := InverseOf(P);
    VecMatInverse(y, P, Pinv);
    TimesIsProduct(15, L);
    assert |y| / 15 == L;
    DecodeBlockCodewords(G, L, u, e, t, dec);
    VecMatInverse(msg, S, InverseOf(S));
  }
}
