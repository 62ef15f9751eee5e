/**
 * The (15, 7) BCH code, correcting two errors per codeword. Its generator and
 * its decoder come from a finite-field library whose algebra is not modelled:
 * the constructor receives them, and the decoder's promise to correct up to two
 * errors is the predicate Corrects(G, 2, decoder), assumed where it is used.
 */
module Bch {
  import opened GF2
  import opened McEliece

  class BchCode {
    const n: nat
    const k: nat
    const t: nat
    const G: Matrix
    const decoder: Vec --> Vec

    /** n = 15, k = 7, t = 2; G is 7 x 15 and the decoder maps 15 bits to 7. */
    ghost predicate Valid() {
      && n == 15 && k == 7 && t == 2
      && G.rows == 7 && G.cols == 15
      && DecodesBlocks(decoder)
      && forall w: Vec :: |w| == 15 ==> |decoder(w)| == 7
    }

    /** `BCHCode()`: the library's BCH(15, 7) code is passed in as its G and its decoder. */
    constructor (bchG: Matrix, bchDecoder: Vec --> Vec)
      requires bchG.rows == 7 && bchG.cols == 15 && DecodesBlocks(bchDecoder)
      requires forall w: Vec :: |w| == 15 ==> |bchDecoder(w)| == 7
      ensures Valid() && G == bchG && decoder == bchDecoder
    {
      n, k, t := 15, 7, 2;
      G := bchG;
      decoder := bchDecoder;
    }

    /**
     * `encode`: the codeword msg·G, 15 bits, which a decoder correcting two
     * errors maps back to msg.
     */
    function Encode(msg: Vec): (c: Vec)
      requires Valid() && |msg| == k
      ensures |c| == n
      ensures Corrects(G, t, decoder) ==> decoder(c) == msg
    {
      assert Add(VecMat(msg, G), Zero(15)) == VecMat(msg, G);
      WeightZero(Zero(15));
      VecMat(msg, G)
    }

    /**
     * `decode`: what the library's decoder returns, 7 bits. When the decoder
     * corrects two errors, a codeword v·G with at most two flipped bits gives v.
     */
    method Decode(codeword: Vec) returns (msg: Vec)
      requires Valid() && |codeword| == n
      ensures msg == decoder(codeword) && |msg| == k
      ensures forall v: Vec, e: Vec ::
        (Corrects(G, t, decoder) && |v| == k && |e| == n && Weight(e) <= t &&
         codeword == Add(VecMat(v, G), e)) ==> msg == v
    {
      var received := codeword;
      msg := decoder(received);
    }
  }
}
