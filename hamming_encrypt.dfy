/**
 * Encryption. With the private matrices S, G_total and P at hand the sender
 * places exactly one error in each of the first t 15-bit blocks of the codeword
 * before permuting ("controlled" mode); with only the public key it computes
 * msg·G_pub and flips t distinct bits anywhere ("public" mode).
 */
module HammingEncrypt {
  import opened Wrappers
  import opened GF2
  import opened McEliece

  /**
   * What `np.random.choice(n, size=t, replace=False)` can return: t distinct
   * positions below n. When t > n the call raises instead of returning.
   */
  predicate IsSample(sample: seq<nat>, t: nat, n: nat) {
    t <= n ==> (|sample| == t && Distinct(sample) && forall i :: 0 <= i < |sample| ==> sample[i] < n)
  }

  /**
   * What the `randint(i * 15, (i + 1) * 15)` calls of the controlled mode can
   * return: one position in each of the first t blocks.
   */
  predicate IsBlockDraw(draws: seq<nat>, t: nat) {
    |draws| == t && OnePerBlock(draws)
  }

  /** The controlled mode is chosen exactly when all three private matrices are given. */
  predicate Controlled(S: Option<Matrix>, Gtotal: Option<Matrix>, P: Option<Matrix>) {
    S.Some? && Gtotal.Some? && P.Some?
  }

  /** ((msg·S)·G_total + e)·P with e one at each drawn position. */
  function ControlledEncrypted(msg: Vec, S: Matrix, Gtotal: Matrix, P: Matrix, draws: seq<nat>): Result<Vec, Error>
  {
    if |msg| != S.rows || S.cols != Gtotal.rows then Err(DimensionMismatch)
    else if exists i :: 0 <= i < |draws| && draws[i] >= Gtotal.cols then Err(IndexOutOfRange)
    else if Gtotal.cols != P.rows then Err(DimensionMismatch)
    else Ok(VecMat(Add(VecMat(VecMat(msg, S), Gtotal), Indicator(Gtotal.cols, draws)), P))
  }

  /** msg·G_pub + e with e one at each sampled position. */
  function PublicEncrypted(msg: Vec, Gpub: Matrix, t: nat, sample: seq<nat>): Result<Vec, Error>
    requires IsSample(sample, t, Gpub.cols)
  {
    if |msg| != Gpub.rows then Err(DimensionMismatch)
    else if t > Gpub.cols then Err(SampleTooLarge)
    else Ok(Add(VecMat(msg, Gpub), Indicator(Gpub.cols, sample)))
  }

  /** `encrypt(msg_bits, G_pub, t, S, G_total, P)`. */
  function Encrypted(msg: Vec, Gpub: Matrix, t: nat, S: Option<Matrix>, Gtotal: Option<Matrix>, P: Option<Matrix>,
                     draws: seq<nat>, sample: seq<nat>): Result<Vec, Error>
    requires !Controlled(S, Gtotal, P) ==> IsSample(sample, t, Gpub.cols)
  {
    if Controlled(S, Gtotal, P) then ControlledEncrypted(msg, S.value, Gtotal.value, P.value, draws)
    else PublicEncrypted(msg, Gpub, t, sample)
  }

  /**
   * `encrypt`. The random draws are inputs: `draws` are the positions the
   * controlled mode picks block by block, `sample` the positions the public mode
   * picks without replacement.
   */
  method Encrypt(msgBits: Vec, Gpub: Matrix, t: nat, S: Option<Matrix>, Gtotal: Option<Matrix>, P: Option<Matrix>,
                 draws: seq<nat>, sample: seq<nat>) returns (r: Result<Vec, Error>)
    requires Controlled(S, Gtotal, P) ==> IsBlockDraw(draws, t)
    requires !Controlled(S, Gtotal, P) ==> IsSample(sample, t, Gpub.cols)
    ensures r == Encrypted(msgBits, Gpub, t, S, Gtotal, P, draws, sample)
  {
    var msg := msgBits;
    if S.Some? && Gtotal.Some? && P.Some? {
      if |msg| != S.value.rows {
        return Err(DimensionMismatch);
      }
      var mS := VecMat(msg, S.value);
      if |mS| != Gtotal.value.rows {
        return Err(DimensionMismatch);
      }
      var mSG := VecMat(mS, Gtotal.value);
      var nTotal := |mSG|;
      var L := t;
      var error := Zero(nTotal);
      for i := 0 to L
        invariant forall i' :: 0 <= i' < i ==> draws[i'] < nTotal
        invariant error == Indicator(nTotal, draws[..i])
      {
        var errorPos := draws[i];
        if errorPos >= nTotal {
          return Err(IndexOutOfRange);
        }
        assert draws[..i + 1][..i] == draws[..i];
        error := error[errorPos := true];
      }
      assert draws[..L] == draws;
      var withError := Add(mSG, error);
      if |withError| != P.value.rows {
        return Err(DimensionMismatch);
      }
      return Ok(VecMat(withError, P.value));
    } else {
      if |msg| != Gpub.rows {
        return Err(DimensionMismatch);
      }
      var c := VecMat(msg, Gpub);
      var nTotal := |c|;
      if t > nTotal {
        return Err(SampleTooLarge);
      }
      var error := Zero(nTotal);
      for j := 0 to |sample|
        invariant error == Indicator(nTotal, sample[..j])
      {
        assert sample[..j + 1][..j] == sample[..j];
        error := error[sample[j] := true];
      }
      assert sample[..|sample|] == sample;
      return Ok(Add(c, error));
    }
  }

  // ---------------------------------------------------------------------
  // What a ciphertext is
  // ---------------------------------------------------------------------

  /** Draws in the first t blocks fit in n bits when the t blocks do. */
  lemma DrawsFit(draws: seq<nat>, t: nat, n: nat)
    requires IsBlockDraw(draws, t) && Times(15, t) <= n
    ensures forall i :: 0 <= i < |draws| ==> draws[i] < n
  {
    forall i | 0 <= i < |draws|
      ensures draws[i] < n
    {
      TimesMono(15, i + 1, t);
    }
  }

  /** A draw in block t - 1 lies past n when n ends before that block starts. */
  lemma DrawsOverflow(draws: seq<nat>, t: nat, n: nat)
    requires IsBlockDraw(draws, t) && 0 < t && n <= Times(15, t - 1)
    ensures draws[t - 1] >= n
  {
  }

  /**
   * The controlled mode succeeds exactly when the shapes fit and the t blocks
   * lie inside the codeword; it raises IndexError when the codeword ends before
   * block t - 1 begins. The ciphertext then has as many bits as P has columns.
   */
  lemma ControlledShape(msg: Vec, S: Matrix, Gtotal: Matrix, P: Matrix, t: nat, draws: seq<nat>)
    requires IsBlockDraw(draws, t)
    ensures Times(15, t) <= Gtotal.cols ==>
      (ControlledEncrypted(msg, S, Gtotal, P, draws).Ok? <==>
        |msg| == S.rows && S.cols == Gtotal.rows && Gtotal.cols == P.rows)
    ensures 0 < t && Gtotal.cols <= Times(15, t - 1) && |msg| == S.rows && S.cols == Gtotal.rows ==>
      ControlledEncrypted(msg, S, Gtotal, P, draws) == Err(IndexOutOfRange)
    ensures ControlledEncrypted(msg, S, Gtotal, P, draws).Ok? ==>
      |ControlledEncrypted(msg, S, Gtotal, P, draws).value| == P.cols
  {
    if Times(15, t) <= Gtotal.cols {
      DrawsFit(draws, t, Gtotal.cols);
    }
    if 0 < t && Gtotal.cols <= Times(15, t - 1) {
      DrawsOverflow(draws, t, Gtotal.cols);
    }
  }

  /**
   * The public mode succeeds exactly when msg fits G_pub and there are at least t
   * bits to flip; the ciphertext then has as many bits as G_pub has columns.
   */
  lemma PublicShape(msg: Vec, Gpub: Matrix, t: nat, sample: seq<nat>)
    requires IsSample(sample, t, Gpub.cols)
    ensures PublicEncrypted(msg, Gpub, t, sample).Ok? <==> |msg| == Gpub.rows && t <= Gpub.cols
    ensures PublicEncrypted(msg, Gpub, t, sample).Ok? ==> |PublicEncrypted(msg, Gpub, t, sample).value| == Gpub.cols
  {
  }

  /**
   * A controlled ciphertext is a public-mode ciphertext in disguise: it is
   * msg·G_pub + e·P for G_pub = S·G_total·P, where the error e has exactly t
   * ones, one in each of the first t blocks and none in the later ones.
   */
  lemma ControlledIsPublic(msg: Vec, S: Matrix, Gtotal: Matrix, P: Matrix, t: nat, draws: seq<nat>)
    requires IsBlockDraw(draws, t)
    requires ControlledEncrypted(msg, S, Gtotal, P, draws).Ok?
    ensures ControlledEncrypted(msg, S, Gtotal, P, draws).value ==
      Add(VecMat(msg, MatMul(MatMul(S, Gtotal), P)), VecMat(Indicator(Gtotal.cols, draws), P))
    ensures Weight(Indicator(Gtotal.cols, draws)) == t
    ensures forall j: nat :: Times(15, j) + 15 <= Gtotal.cols ==>
      Weight(Block(Indicator(Gtotal.cols, draws), 15, j)) == if j < t then 1 else 0
  {
    var e := Indicator(Gtotal.cols, draws);
    var u := VecMat(VecMat(msg, S), Gtotal);
    VecMatAdd(u, e, P);
    VecMatAssoc(msg, S, Gtotal);
    VecMatAssoc(msg, MatMul(S, Gtotal), P);
    OnePerBlockDistinct(draws);
    IndicatorWeight(Gtotal.cols, draws);
    forall j: nat | Times(15, j) + 15 <= Gtotal.cols
      ensures Weight(Block(e, 15, j)) == if j < t then 1 else 0
    {
      OneErrorPerBlock(Gtotal.cols, draws, j);
    }
  }

  /** A public ciphertext is msg·G_pub with exactly t of its bits flipped. */
  lemma PublicErrorWeight(msg: Vec, Gpub: Matrix, t: nat, sample: seq<nat>)
    requires IsSample(sample, t, Gpub.cols)
    requires PublicEncrypted(msg, Gpub, t, sample).Ok?
    ensures Weight(Add(PublicEncrypted(msg, Gpub, t, sample).value, VecMat(msg, Gpub))) == t
  {
    var c := VecMat(msg, Gpub);
    var e := Indicator(Gpub.cols, sample);
    assert Add(Add(c, e), c) == e;
    IndicatorWeight(Gpub.cols, sample);
  }
}
