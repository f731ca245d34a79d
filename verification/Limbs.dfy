/**
 Limbs and limb sequences: `mbedtls_mpi_uint` and the buffers `X->p` point to.
 The width is left open between the two the library supports, so that every
 result holds for 32-bit and for 64-bit limbs.
 */
module Limbs {
  import opened Arith

  /**
   The radix 2^biL, biL being 32 or 64 (bignum.h). Proofs mostly treat it as a
   symbol: the two values are behind `Known`, which `RadixFacts` mentions.
   */
  type Radix = b: int | b >= 65536 && forall u :: Known(u) ==> b == 0x1_0000_0000 || b == 0x1_0000_0000_0000_0000
    witness 0x1_0000_0000

  predicate Known(u: bool) { true }

  const B: Radix

  lemma RadixFacts()
    ensures B == 0x1_0000_0000 || B == 0x1_0000_0000_0000_0000
  {
    assert Known(true);
  }

  /** `biL`, the bits in a limb, and 2^biH, the half-limb radix. */
  function LimbBits(b: Radix): nat {
    if b == 0x1_0000_0000 then 32 else 64
  }

  function HalfRadix(b: Radix): int {
    if b == 0x1_0000_0000 then 0x1_0000 else 0x1_0000_0000
  }

  type Limb = x: int | 0 <= x < B witness 0

  /** The integer a limb buffer denotes, least significant limb first. */
  ghost function Val(p: seq<Limb>): nat {
    if |p| == 0 then 0 else p[0] + B * Val(p[1..])
  }

  lemma ValHead(p: seq<Limb>, i: nat)
    requires i < |p|
    ensures Val(p[i..]) == p[i] + B * Val(p[i + 1..])
  {
    assert p[i..][1..] == p[i + 1..];
  }

  /** The weight of limb i. */
  ghost function W(i: nat): (w: int)
    ensures w > 0
  {
    Pow(B, i)
  }

  lemma {:induction false} ValConcat(p: seq<Limb>, q: seq<Limb>)
    ensures Val(p + q) == Val(p) + W(|p|) * Val(q)
  {
    if |p| == 0 {
      assert p + q == q;
    } else {
      assert (p + q)[1..] == p[1..] + q;
      ValConcat(p[1..], q);
      MulDist(B, Val(p[1..]), W(|p| - 1) * Val(q));
      MulAssoc(B, W(|p| - 1), Val(q));
    }
  }

  lemma ValSplit(p: seq<Limb>, i: nat)
    requires i <= |p|
    ensures Val(p) == Val(p[..i]) + W(i) * Val(p[i..])
  {
    ValConcat(p[..i], p[i..]);
    assert p[..i] + p[i..] == p;
  }

  lemma ValOne(x: Limb)
    ensures Val([x]) == x
  {
  }

  lemma ValSnoc(p: seq<Limb>, i: nat)
    requires i < |p|
    ensures Val(p[..i + 1]) == Val(p[..i]) + p[i] * W(i)
  {
    var x := [p[i]];
    assert p[..i + 1] == p[..i] + x;
    calc {
      Val(p[..i + 1]);
      { ValConcat(p[..i], x); }
      Val(p[..i]) + W(i) * Val(x);
      { ValOne(p[i]); }
      Val(p[..i]) + p[i] * W(i);
    }
  }

  lemma ShiftTerm(b: int, v: int, d: int, w: int)
    ensures b * (v + d * w) == b * v + d * (b * w)
  {
    MulDist(b, v, d * w);
    MulAssoc(b, d, w);
    MulAssoc(d, b, w);
  }

  lemma {:induction false} ValUpdate(p: seq<Limb>, i: nat, x: Limb)
    requires i < |p|
    ensures Val(p[i := x]) == Val(p) + (x - p[i]) * W(i)
  {
    if i > 0 {
      assert p[i := x][1..] == p[1..][i - 1 := x];
      ValUpdate(p[1..], i - 1, x);
      ShiftTerm(B, Val(p[1..]), x - p[i], W(i - 1));
    } else {
      assert p[0 := x][1..] == p[1..];
    }
  }

  lemma DigitLt(x: Limb, v: int, w: int)
    requires v < w
    ensures x + B * v < B * w
  {
    MulLe(v + 1, w, B);
    MulDist(B, v, 1);
  }

  lemma {:induction false} ValBound(p: seq<Limb>)
    ensures Val(p) < W(|p|)
  {
    if |p| > 0 {
      ValBound(p[1..]);
      DigitLt(p[0], Val(p[1..]), W(|p| - 1));
    }
  }

  lemma {:induction false} ValZeros(p: seq<Limb>)
    requires forall i :: 0 <= i < |p| ==> p[i] == 0
    ensures Val(p) == 0
  {
    if |p| > 0 { ValZeros(p[1..]); }
  }

  lemma {:induction false} ValZeroInv(p: seq<Limb>)
    requires Val(p) == 0
    ensures forall i :: 0 <= i < |p| ==> p[i] == 0
  {
    if |p| > 0 {
      ValZeroInv(p[1..]);
      assert forall i :: 1 <= i < |p| ==> p[i] == p[1..][i - 1];
    }
  }

  lemma HighPartZero(lo: nat, hi: nat, w: int)
    requires w > 0 && lo + w * hi < w
    ensures hi == 0
  {
    if hi > 0 { MulLe(1, hi, w); }
  }

  /** Limbs above the value are zero. */
  lemma ValHighZero(p: seq<Limb>, n: nat)
    requires n <= |p| && Val(p) < W(n)
    ensures Val(p[n..]) == 0 && Val(p[..n]) == Val(p)
    ensures forall i :: n <= i < |p| ==> p[i] == 0
  {
    ValSplit(p, n);
    HighPartZero(Val(p[..n]), Val(p[n..]), W(n));
    ValZeroInv(p[n..]);
    assert forall i :: n <= i < |p| ==> p[i] == p[n..][i - n];
  }

  /** Trailing zero limbs (a longer buffer) do not change the value. */
  lemma ValTrailing(p: seq<Limb>, n: nat)
    requires n <= |p| && forall i :: n <= i < |p| ==> p[i] == 0
    ensures Val(p) == Val(p[..n])
  {
    ValSplit(p, n);
    ValZeros(p[n..]);
  }

  lemma WSucc(i: nat)
    ensures W(i + 1) == B * W(i) && W(i + 1) > W(i)
  {
    MulLt(1, B, W(i));
  }

  lemma WMono(i: nat, j: nat)
    requires i <= j
    ensures W(i) <= W(j)
  {
    PowMono(B, i, j);
  }
}
