/**
 * Shared utilities of the McEliece implementation: permutation matrices, the
 * search for an invertible scrambling matrix, and the conversion between text
 * and bits (8 bits per character, most significant bit first).
 */
module Utils {
  import opened Wrappers
  import opened GF2
  import opened GaussJordan
  import opened Bits

  // ---------------------------------------------------------------------
  // Permutation matrices
  // ---------------------------------------------------------------------

  /** perm lists each of 0..n-1 exactly once (what a random permutation of n yields). */
  predicate IsPermutation(perm: seq<nat>, n: nat) {
    && |perm| == n
    && (forall i :: 0 <= i < n ==> perm[i] < n)
    && (forall i, i' :: 0 <= i < n && 0 <= i' < n && perm[i] == perm[i'] ==> i == i')
  }

  /** `identity[perm]`: row i is row perm[i] of the n x n identity matrix. */
  function PermutationMatrix(perm: seq<nat>): (P: Matrix)
    requires IsPermutation(perm, |perm|)
    ensures P.rows == |perm| && P.cols == |perm|
  {
    var n := |perm|;
    BitMatrix(n, n, seq(n, i requires 0 <= i < n => Unit(n, perm[i])))
  }

  /** A permutation matrix has a single 1 in each row, at column perm[i]. */
  lemma PermutationMatrixRows(perm: seq<nat>, i: nat)
    requires IsPermutation(perm, |perm|) && i < |perm|
    ensures PermutationMatrix(perm).bits[i] == Identity(|perm|).bits[perm[i]]
    ensures forall j :: 0 <= j < |perm| ==> (PermutationMatrix(perm).bits[i][j] <==> j == perm[i])
  {
  }

  /** The image of the first m indices of an injective sequence has m elements. */
  lemma {:induction false} ImageCard(perm: seq<nat>, m: nat)
    requires IsPermutation(perm, |perm|) && m <= |perm|
    ensures |set i | 0 <= i < m :: perm[i]| == m
  {
    if m > 0 {
      ImageCard(perm, m - 1);
      var before := set i | 0 <= i < m - 1 :: perm[i];
      var after := set i | 0 <= i < m :: perm[i];
      assert after == before + {perm[m - 1]} by {
        forall j | j in after
          ensures j in before + {perm[m - 1]}
        {
          var i :| 0 <= i < m && perm[i] == j;
          if i < m - 1 {
            assert perm[i] in before;
          }
        }
      }
      assert perm[m - 1] !in before;
    }
  }

  /** {0, ..., n-1}. */
  function RangeSet(n: nat): set<nat>
  {
    if n == 0 then {} else RangeSet(n - 1) + {n - 1}
  }

  lemma {:induction false} RangeSetFacts(n: nat)
    ensures forall j: nat :: j in RangeSet(n) <==> j < n
    ensures |RangeSet(n)| == n
  {
    if n > 0 {
      RangeSetFacts(n - 1);
      assert n - 1 !in RangeSet(n - 1);
    }
  }

  /** An injective map of 0..n-1 into 0..n-1 reaches every value. */
  lemma PermutationOnto(perm: seq<nat>, j: nat)
    requires IsPermutation(perm, |perm|) && j < |perm|
    ensures exists i :: 0 <= i < |perm| && perm[i] == j
  {
    var n := |perm|;
    var image := set i | 0 <= i < n :: perm[i];
    var range := RangeSet(n);
    RangeSetFacts(n);
    ImageCard(perm, n);
    if j !in image {
      assert image <= range - {j};
      assert |range - {j}| == n - 1;
      SubsetCard(image, range - {j});
      assert false;
    }
  }

  lemma {:induction false} SubsetCard<T>(a: set<T>, b: set<T>)
    requires a <= b
    ensures |a| <= |b|
    decreases |b|
  {
    if a != {} {
      var x :| x in a;
      SubsetCard(a - {x}, b - {x});
    }
  }

  /** A permutation matrix has a single 1 in each column too. */
  lemma PermutationMatrixColumns(perm: seq<nat>, j: nat)
    requires IsPermutation(perm, |perm|) && j < |perm|
    ensures exists i :: 0 <= i < |perm| && PermutationMatrix(perm).bits[i][j]
    ensures forall i, i' :: (0 <= i < |perm| && 0 <= i' < |perm| &&
      PermutationMatrix(perm).bits[i][j] && PermutationMatrix(perm).bits[i'][j]) ==> i == i'
  {
    PermutationOnto(perm, j);
    var q :| 0 <= q < |perm| && perm[q] == j;
    assert PermutationMatrix(perm).bits[q][j];
  }

  lemma PermutationTimesTranspose(perm: seq<nat>)
    requires IsPermutation(perm, |perm|)
    ensures MatMul(PermutationMatrix(perm), Transpose(PermutationMatrix(perm))) == Identity(|perm|)
  {
    var n := |perm|;
    var P := PermutationMatrix(perm);
    var T := Transpose(P);
    forall i | 0 <= i < n
      ensures MatMul(P, T).bits[i] == Identity(n).bits[i]
    {
      forall j | 0 <= j < n
        ensures MatMul(P, T).bits[i][j] == (i == j)
      {
        assert Col(T, j) == P.bits[j];
        DotUnitLeft(perm[i], P.bits[j]);
      }
    }
  }

  lemma TransposeTimesPermutation(perm: seq<nat>)
    requires IsPermutation(perm, |perm|)
    ensures MatMul(Transpose(PermutationMatrix(perm)), PermutationMatrix(perm)) == Identity(|perm|)
  {
    var n := |perm|;
    var P := PermutationMatrix(perm);
    var T := Transpose(P);
    forall i | 0 <= i < n
      ensures MatMul(T, P).bits[i] == Identity(n).bits[i]
    {
      PermutationOnto(perm, i);
      var q :| 0 <= q < n && perm[q] == i;
      assert T.bits[i] == Col(P, i) == Unit(n, q);
      forall j | 0 <= j < n
        ensures MatMul(T, P).bits[i][j] == (i == j)
      {
        DotUnitLeft(q, Col(P, j));
      }
    }
  }

  /** The transpose of a permutation matrix is its inverse: P·Pᵀ = Pᵀ·P = I. */
  lemma PermutationMatrixInverse(perm: seq<nat>)
    requires IsPermutation(perm, |perm|)
    ensures IsInverse(PermutationMatrix(perm), Transpose(PermutationMatrix(perm)))
    ensures Invertible(PermutationMatrix(perm))
  {
    PermutationTimesTranspose(perm);
    TransposeTimesPermutation(perm);
    assert IsInverse(PermutationMatrix(perm), Transpose(PermutationMatrix(perm)));
  }

  // ---------------------------------------------------------------------
  // Drawing an invertible matrix
  // ---------------------------------------------------------------------

  /**
   * The retry loop: candidates are tried in order and the first non-singular one
   * is returned. The random draws become the candidate list; running out of
   * candidates gives None.
   */
  method GenerateInvertibleMatrix(n: nat, candidates: seq<Matrix>) returns (r: Option<Matrix>)
    requires forall c :: c in candidates ==> c.rows == n && c.cols == n
    ensures r.Some? ==> r.value.rows == n && r.value.cols == n && Invertible(r.value)
    ensures r.Some? ==> exists i :: (0 <= i < |candidates| && candidates[i] == r.value &&
      forall i' :: 0 <= i' < i ==> !Invertible(candidates[i']))
    ensures r.None? <==> forall i :: 0 <= i < |candidates| ==> !Invertible(candidates[i])
  {
    var i := 0;
    while i < |candidates|
      invariant i <= |candidates|
      invariant forall i' :: 0 <= i' < i ==> !Invertible(candidates[i'])
    {
      var matrix := candidates[i];
      var inv := Invert(matrix);
      if inv.Some? {
        assert IsInverse(matrix, inv.value);
        return Some(matrix);
      }
      i := i + 1;
    }
    return None;
  }

  // ---------------------------------------------------------------------
  // Text and bits
  // ---------------------------------------------------------------------

  /** The 8 bits emitted for one character: `(ord(c) >> (7 - i)) & 1`, i in 0..7. */
  function CharBits(c: char): (b: Vec)
    ensures |b| == 8
  {
    MsbBits(c as nat, 8)
  }

  /** The bits of a whole string, character by character. */
  function TextBits(s: string): (b: Vec)
    ensures |b| == 8 * |s| && |b| % 8 == 0
  {
    if |s| == 0 then [] else TextBits(s[..|s| - 1]) + CharBits(s[|s| - 1])
  }

  /** Character i occupies bits 8i..8i+7, most significant bit first. */
  lemma {:induction false} TextBitsChunk(s: string, i: nat)
    requires i < |s|
    ensures TextBits(s)[8 * i .. 8 * i + 8] == MsbBits(s[i] as nat, 8)
  {
    var s' := s[..|s| - 1];
    if i < |s| - 1 {
      TextBitsChunk(s', i);
      assert s'[i] == s[i];
      assert TextBits(s)[8 * i .. 8 * i + 8] == TextBits(s')[8 * i .. 8 * i + 8];
    } else {
      assert TextBits(s)[8 * i .. 8 * i + 8] == CharBits(s[i]);
    }
  }

  /** `str_to_bits`: for each character, its low 8 bits from the most significant down. */
  method StrToBits(s: string) returns (bits: Vec)
    ensures bits == TextBits(s)
  {
    bits := [];
    var c := 0;
    while c < |s|
      invariant c <= |s|
      invariant bits == TextBits(s[..c])
    {
      var byteVal := s[c] as nat;
      var i := 0;
      ghost var before := bits;
      while i < 8
        invariant i <= 8
        invariant bits == before + MsbBits(byteVal, 8)[..i]
      {
        bits := bits + [Bit(byteVal, 7 - i)];
        i := i + 1;
      }
      assert MsbBits(byteVal, 8)[..8] == CharBits(s[c]);
      assert s[..c + 1][..c] == s[..c];
      c := c + 1;
    }
    assert s[..c] == s;
  }

  /** The bits padded with zeros up to the next multiple of 8. */
  function Padded(bits: Vec): (p: Vec)
    ensures |p| % 8 == 0 && |bits| <= |p| < |bits| + 8
    ensures p[..|bits|] == bits
    ensures forall i :: |bits| <= i < |p| ==> !p[i]
  {
    bits + Zero((8 - |bits| % 8) % 8)
  }

  /** The character for one 8-bit group, or nothing for the null byte. */
  function ByteText(byte: Vec): (t: string)
    requires |byte| == 8
    ensures |t| <= 1
    ensures t == [] <==> forall i :: 0 <= i < 8 ==> !byte[i]
    ensures t != [] ==> t[0] as nat == MsbValue(byte)
  {
    MsbValueZero(byte);
    MsbValueBound(byte);
    assert Pow2(8) == 256;
    var v := MsbValue(byte);
    if v != 0 then [v as char] else []
  }

  /** The text of whole 8-bit groups: each group read MSB first, null bytes dropped. */
  function BytesText(bits: Vec): (t: string)
    requires |bits| % 8 == 0
    ensures |t| <= |bits| / 8
    ensures forall i :: 0 <= i < |t| ==> t[i] != 0 as char
  {
    if |bits| == 0 then [] else BytesText(bits[..|bits| - 8]) + ByteText(bits[|bits| - 8..])
  }

  /** `bits_to_str`: pad to a multiple of 8, then decode 8-bit groups. */
  function BitsText(bits: Vec): (t: string)
    ensures |t| <= (|bits| + 7) / 8
  {
    BytesText(Padded(bits))
  }

  /** The padding loop of `bits_to_str`: append zeros until the length is a multiple of 8. */
  method PadBits(input: Vec) returns (bits: Vec)
    ensures bits == Padded(input)
  {
    bits := input;
    while |bits| % 8 != 0
      invariant |input| <= |bits| <= |Padded(input)|
      invariant bits[..|input|] == input
      invariant forall i :: |input| <= i < |bits| ==> !bits[i]
      decreases |Padded(input)| - |bits|
    {
      bits := bits + [false];
    }
  }

  /** `byte_val = (byte_val << 1) | bit` over the 8 bits starting at i. */
  method ReadByte(bits: Vec, i: nat) returns (byteVal: nat)
    requires i + 8 <= |bits|
    ensures byteVal == MsbValue(bits[i .. i + 8])
  {
    byteVal := 0;
    var j := 0;
    while j < 8
      invariant j <= 8
      invariant byteVal == MsbValue(bits[i .. i + j])
    {
      assert bits[i .. i + j + 1][..j] == bits[i .. i + j];
      byteVal := 2 * byteVal + (if bits[i + j] then 1 else 0);
      j := j + 1;
    }
  }

  /** Decoding one more 8-bit group appends that group's character, if any. */
  lemma BytesTextStep(bits: Vec, i: nat)
    requires i % 8 == 0 && i + 8 <= |bits|
    ensures BytesText(bits[..i + 8]) == BytesText(bits[..i]) + ByteText(bits[i .. i + 8])
    ensures MsbValue(bits[i .. i + 8]) < 256
    ensures ByteText(bits[i .. i + 8]) ==
      (if MsbValue(bits[i .. i + 8]) != 0 then [MsbValue(bits[i .. i + 8]) as char] else [])
  {
    assert bits[..i + 8][..i] == bits[..i];
    assert bits[..i + 8][i..] == bits[i .. i + 8];
    MsbValueBound(bits[i .. i + 8]);
    assert Pow2(8) == 256;
  }

  lemma NextByte(i: nat, n: nat)
    requires i % 8 == 0 && n % 8 == 0 && i < n
    ensures i + 8 <= n && (i + 8) % 8 == 0
  {
  }

  /** `bits_to_str`: pad, then emit one character per non-zero 8-bit group. */
  method BitsToStr(input: Vec) returns (s: string)
    ensures s == BitsText(input)
  {
    var bits := PadBits(input);
    var chars := [];
    var i := 0;
    while i < |bits|
      invariant i <= |bits| && i % 8 == 0
      invariant chars == BytesText(bits[..i])
    {
      NextByte(i, |bits|);
      var byteVal := ReadByte(bits, i);
      BytesTextStep(bits, i);
      if byteVal != 0 {
        chars := chars + [byteVal as char];
      }
      i := i + 8;
    }
    assert bits[..i] == bits;
    s := chars;
  }

  /** Every character of the text is a non-null byte value. */
  predicate IsByteText(s: string) {
    forall i :: 0 <= i < |s| ==> 0 < s[i] as nat < 256
  }

  /** Text whose characters are non-null bytes survives the round trip through bits. */
  lemma {:induction false} TextRoundTrip(s: string)
    requires IsByteText(s)
    ensures BitsText(TextBits(s)) == s
  {
    assert Padded(TextBits(s)) == TextBits(s);
    BytesRoundTrip(s);
  }

  /** A non-null byte value comes back from its 8 bits. */
  lemma CharRoundTrip(c: char)
    requires 0 < c as nat < 256
    ensures ByteText(CharBits(c)) == [c]
  {
    assert Pow2(8) == 256;
    MsbValueOfBits(c as nat, 8);
  }

  lemma {:induction false} BytesRoundTrip(s: string)
    requires IsByteText(s)
    ensures BytesText(TextBits(s)) == s
  {
    if |s| > 0 {
      var s' := s[..|s| - 1];
      var c := s[|s| - 1];
      assert s == s' + [c];
      BytesRoundTrip(s');
      CharRoundTrip(c);
      assert BytesText(TextBits(s)) == BytesText(TextBits(s')) + ByteText(CharBits(c)) by {
        var b := TextBits(s);
        assert b[..|b| - 8] == TextBits(s');
        assert b[|b| - 8..] == CharBits(c);
      }
    }
  }
}
