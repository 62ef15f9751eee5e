/**
 * Key generation of the BCH-based McEliece scheme: as for the Hamming variant,
 * with L copies of the (15, 7) BCH generator on the diagonal and t = 2L.
 */
module BchKeygen {
  import opened Wrappers
  import opened GF2
  import opened Utils
  import opened McEliece
  import opened Bch

  /** `(G_pub, t)`. */
  datatype PublicKey = PublicKey(Gpub: Matrix, t: nat)

  /** `(S, P, G_total, bch_code)`. */
  datatype PrivateKey = PrivateKey(S: Matrix, P: Matrix, Gtotal: Matrix, code: BchCode)

  /**
   * A key pair for L blocks: G_total is the block-diagonal matrix of L copies of
   * the code's G, S is an invertible (7L) x (7L) matrix, P an invertible
   * (15L) x (15L) matrix, G_pub = S·G_total·P and t = 2L, two errors per block.
   */
  ghost predicate KeysOf(pub: PublicKey, priv: PrivateKey, L: nat) {
    && priv.code.Valid()
    && priv.Gtotal == BlockDiagonal(priv.code.G, L)
    && priv.S.rows == Times(7, L) && Invertible(priv.S)
    && priv.P.rows == Times(15, L) && Invertible(priv.P)
    && priv.S.cols == priv.Gtotal.rows && priv.Gtotal.cols == priv.P.rows
    && pub.Gpub == MatMul(MatMul(priv.S, priv.Gtotal), priv.P)
    && pub.t == 2 * L
  }

  /**
   * `generate_keys(L)`. The library's BCH(15, 7) code arrives as its generator
   * and decoder; the random draws are the candidate list for S and the
   * permutation behind P.
   */
  method GenerateKeys(L: nat, bchG: Matrix, bchDecoder: Vec --> Vec, candidates: seq<Matrix>, perm: seq<nat>)
    returns (r: Option<(PublicKey, PrivateKey)>)
    requires bchG.rows == 7 && bchG.cols == 15 && DecodesBlocks(bchDecoder)
    requires forall w: Vec :: |w| == 15 ==> |bchDecoder(w)| == 7
    requires forall c :: c in candidates ==> c.rows == 7 * L && c.cols == 7 * L
    requires |perm| == 15 * L && IsPermutation(perm, |perm|)
    ensures r.None? <==> forall i :: 0 <= i < |candidates| ==> !Invertible(candidates[i])
    ensures r.Some? ==> KeysOf(r.value.0, r.value.1, L)
    ensures r.Some? ==> r.value.1.code.G == bchG && r.value.1.code.decoder == bchDecoder
    ensures r.Some? ==> r.value.1.P == PermutationMatrix(perm)
    ensures r.Some? ==> exists i :: (0 <= i < |candidates| && candidates[i] == r.value.1.S &&
      forall i' :: 0 <= i' < i ==> !Invertible(candidates[i']))
  {
    var bch := new BchCode(bchG, bchDecoder);
    var gBch := bch.G;
    var n, k := bch.n, bch.k;
    var nTotal, kTotal := n * L, k * L;
    var Gtotal := BuildBlockDiagonal(gBch, L);
    var S := GenerateInvertibleMatrix(kTotal, candidates);
    if S.None? {
      return None;
    }
    var P := PermutationMatrix(perm);
    PermutationMatrixInverse(perm);
    TimesIsProduct(7, L);
    TimesIsProduct(15, L);
    var Gpub := MatMul(MatMul(S.value, Gtotal), P);
    var publicKey := PublicKey(Gpub, 2 * L);
    var privateKey := PrivateKey(S.value, P, Gtotal, bch);
    return Some((publicKey, privateKey));
  }
}
