/**
  Powers of two and the bits of a corner or partition index.

  A box of dimension D has 2^D corners and 2^D partitions; index j selects
  the upper side of axis b exactly when bit b of j is set.
 */
module Bits {

  /** 2^n. */
  function Pow2(n: nat): (r: nat)
    ensures r >= 1
  {
    if n == 0 then 1 else 2 * Pow2(n - 1)
  }

  /** Bit b of j, read by halving j b times. */
  predicate Bit(j: nat, b: nat)
    decreases b
  {
    if b == 0 then j % 2 == 1 else Bit(j / 2, b - 1)
  }

  /** The number whose bit k is bs[k]: the index of a chosen corner. */
  function Encode(bs: seq<bool>): nat
  {
    if bs == [] then 0 else (if bs[0] then 1 else 0) + 2 * Encode(bs[1..])
  }

  /** Index 0 has no bit set. */
  lemma {:induction false} NoBitOfZero(b: nat)
    ensures !Bit(0, b)
  {
    if b > 0 {
      NoBitOfZero(b - 1);
    }
  }

  /** Below 2^k, bit k and every higher bit are clear. */
  lemma {:induction false} NoBitAboveWidth(j: nat, k: nat, b: nat)
    requires j < Pow2(k) && k <= b
    ensures !Bit(j, b)
  {
    if k == 0 {
      NoBitOfZero(b);
    } else {
      NoBitAboveWidth(j / 2, k - 1, b - 1);
    }
  }

  /** In [2^k, 2^(k+1)) bit k is set. */
  lemma {:induction false} TopBit(j: nat, k: nat)
    requires Pow2(k) <= j < 2 * Pow2(k)
    ensures Bit(j, k)
  {
    if k > 0 {
      TopBit(j / 2, k - 1);
    }
  }

  /** Adding 2^k leaves the bits below k unchanged. */
  lemma {:induction false} LowBitsIgnoreHighAdd(j: nat, k: nat, i: nat)
    requires i < k
    ensures Bit(j + Pow2(k), i) == Bit(j, i)
  {
    var h := Pow2(k - 1);
    assert Pow2(k) == 2 * h;
    if i > 0 {
      assert (j + Pow2(k)) / 2 == j / 2 + h;
      LowBitsIgnoreHighAdd(j / 2, k - 1, i - 1);
    }
  }

  /** The top index 2^d - 1 has bits 0 .. d-1 all set. */
  lemma {:induction false} AllBitsOfTop(d: nat, b: nat)
    requires b < d
    ensures Bit(Pow2(d) - 1, b)
  {
    var h := Pow2(d - 1);
    assert Pow2(d) - 1 == 2 * h - 1;
    if b > 0 {
      assert (2 * h - 1) / 2 == h - 1;
      AllBitsOfTop(d - 1, b - 1);
    }
  }

  /** Two different indices below 2^d differ in some bit below d. */
  lemma {:induction false} DistinctIndicesDifferInABit(i: nat, j: nat, d: nat)
    requires i < Pow2(d) && j < Pow2(d) && i != j
    ensures exists b: nat :: b < d && Bit(i, b) != Bit(j, b)
  {
    if i % 2 != j % 2 {
      assert Bit(i, 0) != Bit(j, 0);
    } else {
      assert i / 2 != j / 2;
      DistinctIndicesDifferInABit(i / 2, j / 2, d - 1);
      var b: nat :| b < d - 1 && Bit(i / 2, b) != Bit(j / 2, b);
      assert Bit(i, b + 1) != Bit(j, b + 1);
    }
  }

  /** Encode stays below 2^|bs|. */
  lemma {:induction false} EncodeBound(bs: seq<bool>)
    ensures Encode(bs) < Pow2(|bs|)
  {
    if bs != [] {
      EncodeBound(bs[1..]);
    }
  }

  /** c + 2x splits back into its low bit c and its half x. */
  lemma HalveParts(c: nat, x: nat)
    requires c <= 1
    ensures (c + 2 * x) % 2 == c && (c + 2 * x) / 2 == x
  {
  }

  /** Encode reads back bit by bit and stays below 2^|bs|. */
  lemma {:induction false} EncodeRoundTrip(bs: seq<bool>)
    ensures Encode(bs) < Pow2(|bs|)
    ensures forall b :: 0 <= b < |bs| ==> Bit(Encode(bs), b) == bs[b]
  {
    EncodeBound(bs);
    if bs != [] {
      var rest := bs[1..];
      EncodeRoundTrip(rest);
      var e := Encode(bs);
      var low := if bs[0] then 1 else 0;
      assert e == low + 2 * Encode(rest);
      HalveParts(low, Encode(rest));
      forall b | 0 <= b < |bs|
        ensures Bit(e, b) == bs[b]
      {
        if b > 0 {
          assert Bit(e, b) == Bit(Encode(rest), b - 1);
          assert bs[b] == rest[b - 1];
        }
      }
    }
  }
}
