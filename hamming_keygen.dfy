/**
 * Key generation of the Hamming-based McEliece scheme: L copies of the (15, 11)
 * Hamming code side by side form the secret generator G_total, which is hidden
 * as G_pub = S·G_total·P by a random invertible S and a random permutation P.
 */
module HammingKeygen {
  import opened Wrappers
  import opened GF2
  import opened Utils
  import opened McEliece
  import opened Hamming

  /** `(G_pub, t)`: the public generator and the number of errors to add. */
  datatype PublicKey = PublicKey(Gpub: Matrix, t: nat)

  /** `(S, P, G_total, hamming)`. */
  datatype PrivateKey = PrivateKey(S: Matrix, P: Matrix, Gtotal: Matrix, code: HammingCode)

  /**
   * A key pair for L blocks: G_total is the block-diagonal matrix of L Hamming
   * generators, S is an invertible (11L) x (11L) matrix, P an invertible
   * (15L) x (15L) matrix, G_pub = S·G_total·P and t = L, one error per block.
   */
  ghost predicate KeysOf(pub: PublicKey, priv: PrivateKey, L: nat) {
    && priv.code.Valid()
    && priv.Gtotal == BlockDiagonal(Generator(), L)
    && priv.S.rows == Times(11, L) && Invertible(priv.S)
    && priv.P.rows == Times(15, L) && Invertible(priv.P)
    && priv.S.cols == priv.Gtotal.rows && priv.Gtotal.cols == priv.P.rows
    && pub.Gpub == MatMul(MatMul(priv.S, priv.Gtotal), priv.P)
    && pub.t == L
  }

  /**
   * `generate_keys(L)`. The random draws are inputs: `candidates` are the
   * matrices the search for S tries in turn and `perm` is the permutation behind
   * P. Key generation fails (None) only when every candidate is singular.
   */
  method GenerateKeys(L: nat, candidates: seq<Matrix>, perm: seq<nat>) returns (r: Option<(PublicKey, PrivateKey)>)
    requires forall c :: c in candidates ==> c.rows == 11 * L && c.cols == 11 * L
    requires |perm| == 15 * L && IsPermutation(perm, |perm|)
    ensures r.None? <==> forall i :: 0 <= i < |candidates| ==> !Invertible(candidates[i])
    ensures r.Some? ==> KeysOf(r.value.0, r.value.1, L)
    ensures r.Some? ==> r.value.1.P == PermutationMatrix(perm)
    ensures r.Some? ==> exists i :: (0 <= i < |candidates| && candidates[i] == r.value.1.S &&
      forall i' :: 0 <= i' < i ==> !Invertible(candidates[i']))
  {
    var hamming := new HammingCode();
    var n, k := hamming.n, hamming.k;
    var nTotal, kTotal := n * L, k * L;
    var Gtotal := BuildBlockDiagonal(hamming.G, L);
    var S := GenerateInvertibleMatrix(kTotal, candidates);
    if S.None? {
      return None;
    }
    var P := PermutationMatrix(perm);
    PermutationMatrixInverse(perm);
    TimesIsProduct(11, L);
    TimesIsProduct(15, L);
    var Gpub := MatMul(MatMul(S.value, Gtotal), P);
    var publicKey := PublicKey(Gpub, L);
    var privateKey := PrivateKey(S.value, P, Gtotal, hamming);
    return Some((publicKey, privateKey));
  }
}
