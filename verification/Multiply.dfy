/** mbedtls_mpi_mul_mpi, schoolbook multiplication (HAC 14.12). */
module Multiply {
  import opened Arith
  import opened Limbs
  import opened BigNum
  import opened AddSub

  /** X = A * Y; an operand that is X itself is copied first. */
  method MulMpi(X: Mpi, A: Mpi, Y: Mpi)
    requires A.Valid() && Y.Valid()
    modifies X
    ensures X.Valid() && X.Value() == old(A.Value()) * old(Y.Value())
    ensures |X.p| >= 1 && |X.p| >= |old(X.p)|
    ensures X != A && X != Y ==> X.s == A.s * Y.s
  {
    var a := Unalias(X, A);
    var y := Unalias(X, Y);
    var i := UsedLimbs(a.p);
    var j := UsedLimbs(y.p);
    X.Grow(i + j);
    X.Lset(0);
    MulLoop(X, a.p, i, y.p, j);
    X.s := a.s * y.s;
    SignedProduct(a.s, a.Mag(), y.s, y.Mag());
  }

  lemma SignedProduct(s: int, m: int, t: int, n: int)
    requires (s == 1 || s == -1) && (t == 1 || t == -1)
    ensures s * t == 1 || s * t == -1
    ensures (if s * t < 0 then -(m * n) else m * n) == (if s < 0 then -m else m) * (if t < 0 then -n else n)
  {
  }

  /** One multiply-and-add for each limb of y, the top one first, on a zeroed X. */
  method MulLoop(X: Mpi, a: seq<Limb>, i: nat, y: seq<Limb>, n: nat)
    requires i <= |a| && n <= |y| && |X.p| >= i + n && |X.p| >= 1
    requires X.Mag() == 0
    modifies X`p
    ensures X.Mag() == Val(a[..i]) * Val(y[..n]) && |X.p| == |old(X.p)|
  {
    ghost var av := Val(a[..i]);
    var j: nat := n;
    ValHighZero(X.p, 0);
    assert y[..n][n..] == [];
    assert Val(X.p[n..]) == 0 by { ValZeros(X.p[n..]); }
    while j > 0
      invariant j <= n && |X.p| == |old(X.p)|
      invariant forall k :: 0 <= k < j ==> X.p[k] == 0
      invariant Val(X.p[j..]) == av * Val(y[..n][j..])
    {
      MulRoom(X.p, j - 1, a[..i], y[..n]);
      ghost var q := X.p;
      X.MulHlp(i, a, j - 1, y[j - 1]);
      assert forall k :: 0 <= k < j - 1 ==> X.p[k] == X.p[..j - 1][k] == q[..j - 1][k];
      j := j - 1;
    }
    assert X.p[0..] == X.p && y[..n][0..] == y[..n];
  }

  /** Before limb j of the multiplier is used, the product so far leaves room for it. */
  lemma MulRoom(q: seq<Limb>, j: nat, a: seq<Limb>, y: seq<Limb>)
    requires j < |y| && |a| + |y| <= |q|
    requires q[j] == 0 && Val(q[j + 1..]) == Val(a) * Val(y[j + 1..])
    ensures Val(q[j..]) + y[j] * Val(a) == Val(a) * Val(y[j..])
    ensures Val(a) * Val(y[j..]) < W(|q| - j)
  {
    assert q[j..][1..] == q[j + 1..] && y[j..][1..] == y[j + 1..];
    calc {
      Val(a) * Val(y[j..]);
      Val(a) * (y[j] + B * Val(y[j + 1..]));
      { MulDist(Val(a), y[j], B * Val(y[j + 1..])); }
      y[j] * Val(a) + Val(a) * (B * Val(y[j + 1..]));
      { MulAssoc(Val(a), B, Val(y[j + 1..])); MulAssoc(B, Val(a), Val(y[j + 1..])); }
      y[j] * Val(a) + B * (Val(a) * Val(y[j + 1..]));
    }
    ProductFits(a, y[j..]);
    WMono(|a| + |y| - j, |q| - j);
  }

  lemma ProductFits(a: seq<Limb>, y: seq<Limb>)
    ensures Val(a) * Val(y) < W(|a| + |y|)
  {
    ValBound(a);
    ValBound(y);
    assert W(|a|) * W(|y|) == W(|a| + |y|) by { PowAdd(B, |a|, |y|); }
    MulLtMul(Val(a), Val(y), W(|a|), W(|y|));
  }

  /** mbedtls_mpi_mul_int */
  method MulInt(X: Mpi, A: Mpi, z: Limb)
    requires A.Valid()
    modifies X
    ensures X.Valid() && X.Value() == old(A.Value()) * z && |X.p| >= 1 && |X.p| >= |old(X.p)|
    ensures X != A ==> X.s == A.s
  {
    var y := SmallMpi(z);
    MulMpi(X, A, y);
  }
}
