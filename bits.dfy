/**
 * Integer bit arithmetic: shifts and masks on non-negative integers, and the
 * value of a bit string read least-significant-bit first (a syndrome) or
 * most-significant-bit first (a byte of text).
 */
module Bits {
  function Pow2(k: nat): (p: nat)
    ensures p >= 1
  {
    if k == 0 then 1 else 2 * Pow2(k - 1)
  }

  /** `((x >> j) & 1) == 1`: bit j of x. */
  function Bit(x: nat, j: nat): bool
  {
    if j == 0 then x % 2 == 1 else Bit(x / 2, j - 1)
  }

  /** The k low bits of x, least significant first. */
  function LsbBits(x: nat, k: nat): (s: seq<bool>)
    ensures |s| == k
  {
    seq(k, j requires 0 <= j < k => Bit(x, j))
  }

  /** The k low bits of x, most significant first. */
  function MsbBits(x: nat, k: nat): (s: seq<bool>)
    ensures |s| == k
  {
    seq(k, i requires 0 <= i < k => Bit(x, k - 1 - i))
  }

  /** The sum of s[i]·2^i. */
  function LsbValue(s: seq<bool>): nat
  {
    if |s| == 0 then 0 else (if s[0] then 1 else 0) + 2 * LsbValue(s[1..])
  }

  /** The value of s read most significant bit first: `acc = (acc << 1) | bit`. */
  function MsbValue(s: seq<bool>): nat
  {
    if |s| == 0 then 0 else 2 * MsbValue(s[..|s| - 1]) + (if s[|s| - 1] then 1 else 0)
  }

  /** Accumulating s[i]·2^i for ascending i extends the value by the new top bit. */
  lemma {:induction false} LsbValueAppend(s: seq<bool>, b: bool)
    ensures LsbValue(s + [b]) == LsbValue(s) + (if b then Pow2(|s|) else 0)
  {
    if |s| > 0 {
      assert (s + [b])[1..] == s[1..] + [b];
      LsbValueAppend(s[1..], b);
    }
  }

  /** Reading the binary form of x back gives x. */
  lemma {:induction false} LsbValueOfBits(x: nat, k: nat)
    requires x < Pow2(k)
    ensures LsbValue(LsbBits(x, k)) == x
  {
    if k > 0 {
      assert LsbBits(x, k)[1..] == LsbBits(x / 2, k - 1);
      LsbValueOfBits(x / 2, k - 1);
    }
  }

  lemma {:induction false} LsbValueBound(s: seq<bool>)
    ensures LsbValue(s) < Pow2(|s|)
  {
    if |s| > 0 {
      LsbValueBound(s[1..]);
    }
  }

  /** The value is zero exactly when every bit is zero. */
  lemma {:induction false} LsbValueZero(s: seq<bool>)
    ensures LsbValue(s) == 0 <==> forall i :: 0 <= i < |s| ==> !s[i]
  {
    if |s| > 0 {
      LsbValueZero(s[1..]);
      assert forall i :: 1 <= i < |s| ==> s[i] == s[1..][i - 1];
    }
  }

  lemma {:induction false} MsbValueOfBits(x: nat, k: nat)
    requires x < Pow2(k)
    ensures MsbValue(MsbBits(x, k)) == x
  {
    if k > 0 {
      forall i | 0 <= i < k - 1
        ensures MsbBits(x, k)[i] == MsbBits(x / 2, k - 1)[i]
      {
        assert Bit(x, k - 1 - i) == Bit(x / 2, k - 2 - i);
      }
      assert MsbBits(x, k)[..k - 1] == MsbBits(x / 2, k - 1);
      assert MsbBits(x, k)[k - 1] == Bit(x, 0);
      MsbValueOfBits(x / 2, k - 1);
    }
  }

  lemma {:induction false} MsbValueBound(s: seq<bool>)
    ensures MsbValue(s) < Pow2(|s|)
  {
    if |s| > 0 {
      MsbValueBound(s[..|s| - 1]);
    }
  }

  lemma {:induction false} MsbValueZero(s: seq<bool>)
    ensures MsbValue(s) == 0 <==> forall i :: 0 <= i < |s| ==> !s[i]
  {
    if |s| > 0 {
      MsbValueZero(s[..|s| - 1]);
    }
  }
}
