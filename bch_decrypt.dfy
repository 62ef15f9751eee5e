/**
 * Decryption of the BCH-based McEliece scheme, and its correctness under the
 * assumption that the library decoder corrects up to two errors per block.
 */
module BchDecrypt {
  import opened Wrappers
  import opened GF2
  import opened GaussJordan
  import opened McEliece
  import opened Bch
  import opened BchKeygen

  /**
   * `decrypt(ciphertext, S, P, G_total, bch_code)`: undo P, decode each full
   * 15-bit block with the BCH decoder, concatenate, undo S. G_total is accepted
   * and not used.
   */
  method Decrypt(ciphertext: Vec, S: Matrix, P: Matrix, Gtotal: Matrix, code: BchCode) returns (r: Result<Vec, Error>)
    requires code.Valid()
    ensures r == Decrypted(ciphertext, S, P, code.decoder)
  {
    var Pinv := Invert(P);
    if Pinv.None? {
      return Err(NotInvertible);
    }
    InverseUnique(P, Pinv.value, InverseOf(P));
    if |ciphertext| != Pinv.value.rows {
      return Err(DimensionMismatch);
    }
    var cPrime := VecMat(ciphertext, Pinv.value);
    var n, k := code.n, code.k;
    var L := |cPrime| / n;
    TimesIsProduct(15, L);
    var decodedBlocks: seq<Vec> := [];
    for i := 0 to L
      invariant |decodedBlocks| == i && Times(15, i) <= |cPrime|
      invariant Concat(decodedBlocks) == DecodeBlocks(cPrime, i, code.decoder)
    {
      TimesIsProduct(15, i);
      TimesMono(15, i + 1, L);
      var blockStart, blockEnd := i * n, (i + 1) * n;
      assert blockStart == Times(15, i) && blockEnd == Times(15, i) + 15 by {
        assert n == 15;
      }
      var block := cPrime[blockStart..blockEnd];
      assert block == Block(cPrime, 15, i);
      var decodedMsg := code.Decode(block);
      ConcatDecodedStep(cPrime, i, code.decoder, decodedBlocks, decodedMsg);
      decodedBlocks := decodedBlocks + [decodedMsg];
    }
    if |decodedBlocks| == 0 {
      return Err(NothingToConcatenate);
    }
    var mPrime := Concat(decodedBlocks);
    var Sinv := Invert(S);
    if Sinv.None? {
      return Err(NotInvertible);
    }
    InverseUnique(S, Sinv.value, InverseOf(S));
    if |mPrime| != Sinv.value.rows {
      return Err(DimensionMismatch);
    }
    return Ok(VecMat(mPrime, Sinv.value));
  }

  /**
   * Decryption succeeds exactly when P and S are invertible, the ciphertext fits
   * P, it holds at least one 15-bit block, and S is (7L) x (7L) for
   * L = len(ciphertext) // 15; the plaintext then has 7L bits.
   */
  lemma DecryptShape(c: Vec, S: Matrix, P: Matrix, code: BchCode)
    requires code.Valid()
    ensures Decrypted(c, S, P, code.decoder).Ok? <==>
      (Invertible(P) && |c| == P.rows && |c| / 15 > 0 && Invertible(S) && S.rows == 7 * (|c| / 15))
    ensures Decrypted(c, S, P, code.decoder).Ok? ==> |Decrypted(c, S, P, code.decoder).value| == 7 * (|c| / 15)
  {
    DecryptedShape(c, S, P, code.decoder, 7);
  }

  /**
   * Correctness of the scheme, conditional on the decoder: for keys produced by
   * key generation with L > 0 blocks, if the decoder corrects two errors per
   * codeword, then msg·S·G_total with at most two errors in each 15-bit block,
   * permuted by P, decrypts to msg.
   */
  lemma RoundTrip(pub: PublicKey, priv: PrivateKey, L: nat, msg: Vec, e: Vec)
    requires KeysOf(pub, priv, L) && 0 < L && |msg| == Times(7, L)
    requires Corrects(priv.code.G, 2, priv.code.decoder)
    requires |e| == Times(15, L) && BlockWeightsAtMost(e, 2)
    ensures Decrypted(VecMat(Add(VecMat(VecMat(msg, priv.S), priv.Gtotal), e), priv.P), priv.S, priv.P, priv.code.decoder)
      == Ok(msg)
  {
    DecryptRoundTrip(msg, priv.S, priv.code.G, L, priv.P, e, 2, priv.code.decoder);
  }
}
