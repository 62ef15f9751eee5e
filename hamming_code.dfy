/**
 * The (15, 11) Hamming code: n = 15, k = 11, t = 1, r = 4 parity bits.
 *
 * Codeword slots are numbered 0..14 (1..15 in the classical 1-indexed
 * numbering). Parity bits sit at the power-of-two slots 0, 1, 3, 7 and the 11
 * message bits in the other slots, in order. Column i of the parity-check
 * matrix H is i+1 in binary, so the syndrome of a word with one flipped bit
 * spells out the (1-indexed) position of that bit.
 */
module Hamming {
  import opened GF2
  import opened Bits

  // ---------------------------------------------------------------------
  // The code as values
  // ---------------------------------------------------------------------

  /** The parity slots (0-indexed): 1, 2, 4, 8 in 1-indexed numbering. */
  function ParityPositions(): seq<nat> { [0, 1, 3, 7] }

  /** The message slots, in message order: every slot that is not a parity slot. */
  function DataPositions(): seq<nat> { [2, 4, 5, 6, 8, 9, 10, 11, 12, 13, 14] }

  /** H is 4 x 15 and entry (j, i) is bit j of i+1. */
  function ParityCheck(): (H: Matrix)
    ensures H.rows == 4 && H.cols == 15
  {
    BitMatrix(4, 15, seq(4, j requires 0 <= j < 4 => seq(15, i requires 0 <= i < 15 => Bit(i + 1, j))))
  }

  /**
   * The generator row of the message bit stored at slot d: a 1 at d, and a 1 at
   * parity slot 0, 1, 3, 7 when bit 0, 1, 2, 3 of d+1 is set.
   */
  function GeneratorRow(d: nat): (g: Vec)
    ensures |g| == 15
  {
    seq(15, p =>
      || p == d
      || (p == 0 && Bit(d + 1, 0))
      || (p == 1 && Bit(d + 1, 1))
      || (p == 3 && Bit(d + 1, 2))
      || (p == 7 && Bit(d + 1, 3)))
  }

  /** G is 11 x 15 and row m is the generator row of slot DataPositions()[m]. */
  function Generator(): (G: Matrix)
    ensures G.rows == 11 && G.cols == 15
  {
    BitMatrix(11, 15, seq(11, m requires 0 <= m < 11 => GeneratorRow(DataPositions()[m])))
  }

  /** `msg @ G`. */
  function Encoded(msg: Vec): (c: Vec)
    requires |msg| == 11
    ensures |c| == 15
  {
    VecMat(msg, Generator())
  }

  /** `H @ received`: the 4-bit syndrome. */
  function Syndrome(w: Vec): (s: Vec)
    requires |w| == 15
    ensures |s| == 4
  {
    MatVec(ParityCheck(), w)
  }

  /**
   * The received word after syndrome correction: when the syndrome is non-zero,
   * its value (bit i worth 2^i) is taken as a 1-indexed error position and, if it
   * lies in 1..15, that bit is flipped.
   */
  function Corrected(w: Vec): (c: Vec)
    requires |w| == 15
    ensures |c| == 15
  {
    var s := Syndrome(w);
    if s != Zero(4) && 1 <= LsbValue(s) <= 15 then
      w[LsbValue(s) - 1 := !w[LsbValue(s) - 1]]
    else
      w
  }

  /** The message bits read from the data slots. */
  function Extract(w: Vec): (m: Vec)
    requires |w| == 15
    ensures |m| == 11
  {
    seq(11, i requires 0 <= i < 11 => w[DataPositions()[i]])
  }

  /** What `decode` returns for the received word w. */
  function Decoded(w: Vec): (m: Vec)
    requires |w| == 15
    ensures |m| == 11
  {
    Extract(Corrected(w))
  }

  // ---------------------------------------------------------------------
  // The shape of H and G
  // ---------------------------------------------------------------------

  /** Column i of H is the 4-bit binary form of i+1, least significant bit first. */
  lemma ParityCheckColumn(i: nat)
    requires i < 15
    ensures Col(ParityCheck(), i) == LsbBits(i + 1, 4)
    ensures LsbValue(Col(ParityCheck(), i)) == i + 1
  {
    assert Pow2(4) == 16;
    LsbValueOfBits(i + 1, 4);
  }

  /** The columns of H are non-zero and pairwise distinct. */
  lemma ParityCheckColumnsDistinct()
    ensures forall i :: 0 <= i < 15 ==> Col(ParityCheck(), i) != Zero(4)
    ensures forall i, i' :: 0 <= i < 15 && 0 <= i' < 15 && Col(ParityCheck(), i) == Col(ParityCheck(), i') ==> i == i'
  {
    forall i | 0 <= i < 15
      ensures LsbValue(Col(ParityCheck(), i)) == i + 1
    {
      ParityCheckColumn(i);
    }
    LsbValueZero(Zero(4));
  }

  /** The parity and data slots are disjoint, cover 0..14, and the data slots are increasing. */
  lemma PositionsPartition()
    ensures forall p :: 0 <= p < 15 ==> (p in ParityPositions() <==> p !in DataPositions())
    ensures forall d :: d in DataPositions() ==> d < 15
    ensures forall i, i' :: 0 <= i < i' < 11 ==> DataPositions()[i] < DataPositions()[i']
    ensures forall b :: 0 <= b < 4 ==> ParityPositions()[b] + 1 == Pow2(b)
  {
    assert Pow2(3) == 8;
  }

  /**
   * Row m of G has a 1 at its data slot DataPositions()[m], a 1 at parity slot
   * ParityPositions()[b] exactly when bit b of DataPositions()[m]+1 is set, and 0 elsewhere.
   */
  lemma GeneratorEntries(m: nat)
    requires m < 11
    ensures Generator().bits[m][DataPositions()[m]]
    ensures forall b :: 0 <= b < 4 ==>
      Generator().bits[m][ParityPositions()[b]] == Bit(DataPositions()[m] + 1, b)
    ensures forall p :: 0 <= p < 15 && p != DataPositions()[m] && p !in ParityPositions() ==>
      !Generator().bits[m][p]
  {
    PositionsPartition();
  }

  /** The generator row of a data slot is e_d plus the parity unit vectors its bits select. */
  lemma GeneratorRowAsSum(d: nat)
    requires d < 15 && d !in ParityPositions()
    ensures GeneratorRow(d) ==
      Add(Unit(15, d),
      Add(Scale(Bit(d + 1, 0), Unit(15, 0)),
      Add(Scale(Bit(d + 1, 1), Unit(15, 1)),
      Add(Scale(Bit(d + 1, 2), Unit(15, 3)),
          Scale(Bit(d + 1, 3), Unit(15, 7))))))
  {
  }

  lemma {:induction false} BitOfZero(j: nat)
    ensures !Bit(0, j)
  {
    if j > 0 {
      BitOfZero(j - 1);
    }
  }

  /** 2^b has exactly bit b set. */
  lemma {:induction false} BitOfPow2(b: nat, j: nat)
    ensures Bit(Pow2(b), j) == (b == j)
  {
    if j == 0 {
      if b > 0 {
        assert Pow2(b) == 2 * Pow2(b - 1);
      }
    } else if b == 0 {
      BitOfZero(j - 1);
    } else {
      assert Pow2(b) / 2 == Pow2(b - 1);
      BitOfPow2(b - 1, j - 1);
    }
  }

  lemma DotScaleUnit(u: Vec, b: bool, p: nat)
    requires p < |u|
    ensures Dot(u, Scale(b, Unit(|u|, p))) == (b && u[p])
  {
    if b {
      DotUnitRight(u, p);
    } else {
      DotZeroRight(u);
    }
  }

  /** Row j of H is orthogonal to the generator row of every data slot. */
  lemma ParityRowOrthogonal(j: nat, d: nat)
    requires j < 4 && d < 15 && d !in ParityPositions()
    ensures !Dot(ParityCheck().bits[j], GeneratorRow(d))
  {
    var h := ParityCheck().bits[j];
    var b0, b1, b2, b3 := Bit(d + 1, 0), Bit(d + 1, 1), Bit(d + 1, 2), Bit(d + 1, 3);
    var x0, x1, x2, x3 := Scale(b0, Unit(15, 0)), Scale(b1, Unit(15, 1)), Scale(b2, Unit(15, 3)), Scale(b3, Unit(15, 7));
    GeneratorRowAsSum(d);
    DotAddRight(h, Unit(15, d), Add(x0, Add(x1, Add(x2, x3))));
    DotAddRight(h, x0, Add(x1, Add(x2, x3)));
    DotAddRight(h, x1, Add(x2, x3));
    DotAddRight(h, x2, x3);
    DotUnitRight(h, d);
    DotScaleUnit(h, b0, 0);
    DotScaleUnit(h, b1, 1);
    DotScaleUnit(h, b2, 3);
    DotScaleUnit(h, b3, 7);
    assert Pow2(3) == 8;
    BitOfPow2(0, j);
    BitOfPow2(1, j);
    BitOfPow2(2, j);
    BitOfPow2(3, j);
  }

  /** H·g == 0 for every row g of G. */
  lemma GeneratorRowInKernel(m: nat)
    requires m < 11
    ensures MatVec(ParityCheck(), Generator().bits[m]) == Zero(4)
  {
    PositionsPartition();
    forall j | 0 <= j < 4
      ensures !MatVec(ParityCheck(), Generator().bits[m])[j]
    {
      ParityRowOrthogonal(j, DataPositions()[m]);
    }
  }

  /** H·Gᵀ == 0: every row of G is in the kernel of H. */
  lemma ParityCheckTimesGeneratorTransposed()
    ensures MatMul(ParityCheck(), Transpose(Generator())) == ZeroMatrix(4, 11)
  {
    var H, G := ParityCheck(), Generator();
    PositionsPartition();
    forall j | 0 <= j < 4
      ensures MatMul(H, Transpose(G)).bits[j] == Zero(11)
    {
      forall m | 0 <= m < 11
        ensures !MatMul(H, Transpose(G)).bits[j][m]
      {
        assert Col(Transpose(G), m) == G.bits[m];
        GeneratorRowInKernel(m);
        assert Dot(H.bits[j], G.bits[m]) == MatVec(H, G.bits[m])[j];
      }
    }
  }

  // ---------------------------------------------------------------------
  // Encoding and decoding
  // ---------------------------------------------------------------------

  /** Every codeword msg·G has syndrome zero. */
  lemma CodewordSyndrome(msg: Vec)
    requires |msg| == 11
    ensures Syndrome(Encoded(msg)) == Zero(4)
  {
    var H, G := ParityCheck(), Generator();
    PositionsPartition();
    forall j | 0 <= j < 4
      ensures !Syndrome(Encoded(msg))[j]
    {
      forall m | 0 <= m < 11
        ensures !MatVec(G, H.bits[j])[m]
      {
        GeneratorRowInKernel(m);
        assert Dot(H.bits[j], G.bits[m]) == MatVec(H, G.bits[m])[j];
        DotComm(H.bits[j], G.bits[m]);
      }
      assert MatVec(G, H.bits[j]) == Zero(11);
      DotComm(H.bits[j], Encoded(msg));
      Adjoint(msg, G, H.bits[j]);
      DotZeroRight(msg);
    }
  }

  /** Column DataPositions()[i] of G is the unit vector e_i: the code is systematic. */
  lemma GeneratorDataColumn(i: nat)
    requires i < 11
    ensures Col(Generator(), DataPositions()[i]) == Unit(11, i)
  {
    PositionsPartition();
  }

  /** The data slots of msg·G carry msg verbatim. */
  lemma ExtractEncoded(msg: Vec)
    requires |msg| == 11
    ensures Extract(Encoded(msg)) == msg
  {
    forall i | 0 <= i < 11
      ensures Extract(Encoded(msg))[i] == msg[i]
    {
      GeneratorDataColumn(i);
      DotUnitRight(msg, i);
    }
  }

  /** With no error, decoding a codeword returns the message. */
  lemma DecodeEncoded(msg: Vec)
    requires |msg| == 11
    ensures Corrected(Encoded(msg)) == Encoded(msg)
    ensures Decoded(Encoded(msg)) == msg
  {
    CodewordSyndrome(msg);
    ExtractEncoded(msg);
  }

  /** Flipping slot p of a codeword gives syndrome value p+1. */
  lemma SingleErrorSyndrome(msg: Vec, p: nat)
    requires |msg| == 11 && p < 15
    ensures Syndrome(Add(Encoded(msg), Unit(15, p))) == Col(ParityCheck(), p)
    ensures Syndrome(Add(Encoded(msg), Unit(15, p))) != Zero(4)
    ensures LsbValue(Syndrome(Add(Encoded(msg), Unit(15, p)))) == p + 1
  {
    var H := ParityCheck();
    MatVecAdd(H, Encoded(msg), Unit(15, p));
    CodewordSyndrome(msg);
    MatVecUnit(H, p);
    ParityCheckColumn(p);
    ParityCheckColumnsDistinct();
  }

  /** Any single flipped bit is corrected, and the message is recovered. */
  lemma CorrectsSingleError(msg: Vec, p: nat)
    requires |msg| == 11 && p < 15
    ensures Corrected(Add(Encoded(msg), Unit(15, p))) == Encoded(msg)
    ensures Decoded(Add(Encoded(msg), Unit(15, p))) == msg
  {
    SingleErrorSyndrome(msg, p);
    ExtractEncoded(msg);
  }

  /** The decoder's guarantee for t = 1: at most one error per codeword is corrected. */
  lemma CorrectsUpToOneError(msg: Vec, e: Vec)
    requires |msg| == 11 && |e| == 15 && Weight(e) <= 1
    ensures Decoded(Add(Encoded(msg), e)) == msg
  {
    var p := WeightAtMostOne(e);
    if e == Zero(15) {
      assert Add(Encoded(msg), e) == Encoded(msg);
      DecodeEncoded(msg);
    } else {
      CorrectsSingleError(msg, p);
    }
  }

  /**
   * Correction changes at most one bit, changes none when the syndrome is zero, and
   * a non-zero syndrome always has a value in 1..15, so the range guard never rejects it.
   */
  lemma CorrectionIsLocal(w: Vec)
    requires |w| == 15
    ensures Weight(Add(w, Corrected(w))) <= 1
    ensures Syndrome(w) == Zero(4) ==> Corrected(w) == w
    ensures Syndrome(w) != Zero(4) ==> 1 <= LsbValue(Syndrome(w)) <= 15
    ensures Syndrome(w) != Zero(4) ==> Add(w, Corrected(w)) == Unit(15, LsbValue(Syndrome(w)) - 1)
  {
    var s := Syndrome(w);
    LsbValueBound(s);
    LsbValueZero(s);
    assert Pow2(4) == 16;
    if s != Zero(4) {
      assert exists i :: 0 <= i < 4 && s[i];
      var v := LsbValue(s);
      assert Add(w, Corrected(w)) == Unit(15, v - 1);
      UnitWeight(15, v - 1);
    } else {
      assert Add(w, w) == Zero(15);
      WeightZero(Zero(15));
    }
  }

  // ---------------------------------------------------------------------
  // The constructor's loops
  // ---------------------------------------------------------------------

  /** `H[j, i] = ((i + 1) >> j) & 1`, filled column by column. */
  method BuildParityCheck(n: nat, r: nat) returns (H: Matrix)
    requires n == 15 && r == 4
    ensures H == ParityCheck()
  {
    var h := seq(r, _ => Zero(n));
    var i := 0;
    while i < n
      invariant i <= n
      invariant |h| == r && forall j :: 0 <= j < r ==> |h[j]| == n
      invariant forall j, c :: 0 <= j < r && 0 <= c < n ==> h[j][c] == (c < i && Bit(c + 1, j))
    {
      var j := 0;
      while j < r
        invariant j <= r
        invariant |h| == r && forall j' :: 0 <= j' < r ==> |h[j']| == n
        invariant forall j', c :: 0 <= j' < r && 0 <= c < n ==>
          h[j'][c] == ((c < i || (c == i && j' < j)) && Bit(c + 1, j'))
      {
        h := h[j := h[j][i := Bit(i + 1, j)]];
        j := j + 1;
      }
      i := i + 1;
    }
    forall j | 0 <= j < r
      ensures h[j] == ParityCheck().bits[j]
    {
      assert forall c :: 0 <= c < n ==> h[j][c] == ParityCheck().bits[j][c];
    }
    H := BitMatrix(r, n, h);
  }

  /** One pass of the generator loop: the row for the message bit stored at slot pos. */
  method GeneratorRowFor(n: nat, pos: nat) returns (row: Vec)
    requires n == 15 && pos < n
    ensures row == GeneratorRow(pos)
  {
    row := Zero(n);
    var pos1 := pos + 1;
    row := row[pos := true];
    if Bit(pos1, 0) { row := row[0 := true]; }
    if Bit(pos1, 1) { row := row[1 := true]; }
    if Bit(pos1, 2) { row := row[3 := true]; }
    if Bit(pos1, 3) { row := row[7 := true]; }
  }

  /**
   * Row m of G gets a 1 at its data slot and a 1 at parity slot 0, 1, 3, 7 for
   * each set bit 0, 1, 2, 3 of that slot's 1-indexed position.
   */
  method BuildGenerator(n: nat, dataPosList: seq<nat>) returns (G: Matrix)
    requires n == 15 && dataPosList == DataPositions()
    ensures G == Generator()
  {
    var k := |dataPosList|;
    var g := seq(k, _ => Zero(n));
    var m := 0;
    while m < k
      invariant m <= k && |g| == k
      invariant forall m' :: 0 <= m' < m ==> g[m'] == GeneratorRow(dataPosList[m'])
    {
      var row := GeneratorRowFor(n, dataPosList[m]);
      g := g[m := row];
      m := m + 1;
    }
    assert g == Generator().bits;
    G := BitMatrix(k, n, g);
  }

  // ---------------------------------------------------------------------
  // The code as an object
  // ---------------------------------------------------------------------

  /** A `HammingCode` instance: its parameters and matrices never change after construction. */
  class HammingCode {
    const n: nat
    const k: nat
    const t: nat
    const r: nat
    const H: Matrix
    const G: Matrix
    const dataPositions: seq<nat>

    predicate Valid() {
      && n == 15 && k == 11 && t == 1 && r == 4
      && H == ParityCheck() && G == Generator() && dataPositions == DataPositions()
    }

    /** Builds H cell by cell, then G row by row. */
    constructor ()
      ensures Valid()
    {
      var h := BuildParityCheck(15, 4);
      var dataPosList := [2, 4, 5, 6, 8, 9, 10, 11, 12, 13, 14];
      var g := BuildGenerator(15, dataPosList);
      n, k, t, r := 15, 11, 1, 4;
      H := h;
      G := g;
      dataPositions := dataPosList;
    }

    /** `msg @ G`: a codeword whose syndrome is zero and whose data slots hold msg. */
    function Encode(msg: Vec): (c: Vec)
      requires Valid() && |msg| == k
      ensures |c| == n
      ensures Syndrome(c) == Zero(4)
      ensures forall i :: 0 <= i < k ==> c[dataPositions[i]] == msg[i]
    {
      CodewordSyndrome(msg);
      ExtractEncoded(msg);
      VecMat(msg, G)
    }

    /**
     * Syndrome decoding: compute H·received, read it as a number, flip the bit it
     * points at, and read the message bits from the data slots.
     */
    method Decode(codeword: Vec) returns (msg: Vec)
      requires Valid() && |codeword| == n
      ensures msg == Decoded(codeword)
    {
      var received := codeword;
      var syndrome := MatVec(H, received);
      if syndrome != Zero(|syndrome|) {
        var syndromeVal := 0;
        var i := 0;
        while i < |syndrome|
          invariant i <= |syndrome|
          invariant syndromeVal == LsbValue(syndrome[..i])
        {
          LsbValueAppend(syndrome[..i], syndrome[i]);
          assert syndrome[..i + 1] == syndrome[..i] + [syndrome[i]];
          syndromeVal := syndromeVal + (if syndrome[i] then Pow2(i) else 0);
          i := i + 1;
        }
        assert syndrome[..i] == syndrome;
        if 1 <= syndromeVal <= n {
          var errorPos := syndromeVal - 1;
          received := received[errorPos := !received[errorPos]];
        }
      }
      assert received == Corrected(codeword);
      msg := Zero(k);
      var j := 0;
      while j < |dataPositions|
        invariant j <= |dataPositions| && |msg| == k
        invariant forall j' :: 0 <= j' < j ==> msg[j'] == received[dataPositions[j']]
      {
        msg := msg[j := received[dataPositions[j]]];
        j := j + 1;
      }
    }
  }
}
