/**
 * Decryption of the Hamming-based McEliece scheme, and the scheme's correctness:
 * a message encrypted in controlled mode under a generated key pair decrypts to
 * itself.
 */
module HammingDecrypt {
  import opened Wrappers
  import opened GF2
  import opened GaussJordan
  import opened McEliece
  import opened Hamming
  import opened HammingKeygen
  import opened HammingEncrypt

  /**
   * `decrypt(ciphertext, S, P, G_total, hamming_code)`: undo P, decode each full
   * 15-bit block with the Hamming decoder, concatenate, undo S. G_total is
   * accepted and not used.
   */
  method Decrypt(ciphertext: Vec, S: Matrix, P: Matrix, Gtotal: Matrix, code: HammingCode) returns (r: Result<Vec, Error>)
    requires code.Valid()
    ensures r == Decrypted(ciphertext, S, P, Decoded)
  {
    var Pinv := Invert(P);
    if Pinv.None? {
      return Err(NotInvertible);
    }
    InverseUnique(P, Pinv.value, InverseOf(P));
    if |ciphertext| != Pinv.value.rows {
      return Err(DimensionMismatch);
    }
    var cPrime := VecMat(ciphertext, Pinv.value);
    var n, k := code.n, code.k;
    var L := |cPrime| / n;
    TimesIsProduct(15, L);
    var decodedBlocks: seq<Vec> := [];
    for i := 0 to L
      invariant |decodedBlocks| == i && Times(15, i) <= |cPrime|
      invariant Concat(decodedBlocks) == DecodeBlocks(cPrime, i, Decoded)
    {
      TimesIsProduct(15, i);
      TimesMono(15, i + 1, L);
      var blockStart, blockEnd := i * n, (i + 1) * n;
      assert blockStart == Times(15, i) && blockEnd == Times(15, i) + 15 by {
        assert n == 15;
      }
      var block := cPrime[blockStart..blockEnd];
      assert block == Block(cPrime, 15, i);
      var decodedMsg := code.Decode(block);
      ConcatDecodedStep(cPrime, i, Decoded, decodedBlocks, decodedMsg);
      decodedBlocks := decodedBlocks + [decodedMsg];
    }
    if |decodedBlocks| == 0 {
      return Err(NothingToConcatenate);
    }
    var mPrime := Concat(decodedBlocks);
    var Sinv := Invert(S);
    if Sinv.None? {
      return Err(NotInvertible);
    }
    InverseUnique(S, Sinv.value, InverseOf(S));
    if |mPrime| != Sinv.value.rows {
      return Err(DimensionMismatch);
    }
    return Ok(VecMat(mPrime, Sinv.value));
  }

  /**
   * Decryption succeeds exactly when P and S are invertible, the ciphertext fits
   * P, it holds at least one 15-bit block, and S is (11L) x (11L) for
   * L = len(ciphertext) // 15; the plaintext then has 11L bits.
   */
  lemma DecryptShape(c: Vec, S: Matrix, P: Matrix)
    ensures Decrypted(c, S, P, Decoded).Ok? <==>
      (Invertible(P) && |c| == P.rows && |c| / 15 > 0 && Invertible(S) && S.rows == 11 * (|c| / 15))
    ensures Decrypted(c, S, P, Decoded).Ok? ==> |Decrypted(c, S, P, Decoded).value| == 11 * (|c| / 15)
  {
    DecryptedShape(c, S, P, Decoded, 11);
  }

  /** The Hamming decoder corrects every single error in a 15-bit block. */
  lemma HammingCorrects()
    ensures Corrects(Generator(), 1, Decoded)
  {
    forall v: Vec, w: Vec | |v| == 11 && |w| == 15 && Weight(w) <= 1
      ensures Decoded(Add(VecMat(v, Generator()), w)) == v
    {
      CorrectsUpToOneError(v, w);
    }
  }

  /**
   * Correctness of the scheme: for keys produced by key generation with L > 0
   * blocks, a message of 11L bits encrypted in controlled mode (one error in each
   * block) decrypts to the message.
   */
  lemma RoundTrip(pub: PublicKey, priv: PrivateKey, L: nat, msg: Vec, draws: seq<nat>, sample: seq<nat>)
    requires KeysOf(pub, priv, L) && 0 < L && |msg| == Times(11, L)
    requires IsBlockDraw(draws, pub.t)
    ensures Encrypted(msg, pub.Gpub, pub.t, Some(priv.S), Some(priv.Gtotal), Some(priv.P), draws, sample).Ok?
    ensures Decrypted(Encrypted(msg, pub.Gpub, pub.t, Some(priv.S), Some(priv.Gtotal), Some(priv.P), draws, sample).value,
                      priv.S, priv.P, Decoded) == Ok(msg)
  {
    DrawsFit(draws, L, priv.Gtotal.cols);
    var e := Indicator(priv.Gtotal.cols, draws);
    ControlledShape(msg, priv.S, priv.Gtotal, priv.P, L, draws);
    forall i: nat | Times(15, i) + 15 <= |e|
      ensures Weight(Block(e, 15, i)) <= 1
    {
      OneErrorPerBlock(priv.Gtotal.cols, draws, i);
    }
    HammingCorrects();
    DecryptRoundTrip(msg, priv.S, Generator(), L, priv.P, e, 1, Decoded);
  }
}
