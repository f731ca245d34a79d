/** mbedtls_mpi_cmp_abs, mbedtls_mpi_cmp_mpi and mbedtls_mpi_cmp_int. */
module Compare {
  import opened Arith
  import opened Limbs
  import opened BigNum

  function Sgn(x: int): int {
    if x < 0 then -1 else if x == 0 then 0 else 1
  }

  /** A nonzero limb at index i-1 outweighs everything below. */
  lemma UsedBounds(q: seq<Limb>, i: nat)
    requires 0 < i <= |q| && q[i - 1] != 0 && Val(q) == Val(q[..i])
    ensures W(i - 1) <= Val(q) < W(i)
  {
    ValSnoc(q, i - 1);
    ValBound(q[..i]);
    MulLe(1, q[i - 1], W(i - 1));
  }

  lemma LongerIsLarger(x: seq<Limb>, i: nat, y: seq<Limb>, j: nat)
    requires j < i <= |x| && x[i - 1] != 0 && Val(x) == Val(x[..i])
    requires j <= |y| && Val(y) == Val(y[..j])
    ensures Val(y) < Val(x)
  {
    assert W(i - 1) <= Val(x) by { UsedBounds(x, i); }
    assert Val(y) < W(j) by { ValBound(y[..j]); }
    WMono(j, i - 1);
  }

  lemma TopLimbDecides(x: seq<Limb>, y: seq<Limb>, i: nat)
    requires 0 < i <= |x| && i <= |y| && y[i - 1] < x[i - 1]
    ensures Val(y[..i]) < Val(x[..i])
  {
    ValSnoc(x, i - 1);
    ValSnoc(y, i - 1);
    ValBound(y[..i - 1]);
    MulLe(y[i - 1] + 1, x[i - 1], W(i - 1));
    MulDist(W(i - 1), y[i - 1], 1);
  }

  /** The common descent of the two comparisons, over the used limbs of both. */
  method CmpDigits(x: seq<Limb>, y: seq<Limb>, n: nat) returns (r: int)
    requires n <= |x| && n <= |y|
    ensures r == Sgn(Val(x[..n]) - Val(y[..n]))
  {
    var i: nat := n;
    while i > 0
      invariant i <= n
      invariant Val(x[..n]) - Val(y[..n]) == Val(x[..i]) - Val(y[..i])
    {
      if x[i - 1] > y[i - 1] { TopLimbDecides(x, y, i); return 1; }
      if x[i - 1] < y[i - 1] { TopLimbDecides(y, x, i); return -1; }
      ValSnoc(x, i - 1);
      ValSnoc(y, i - 1);
      i := i - 1;
    }
    assert x[..0] == y[..0];
    return 0;
  }

  method CmpAbs(X: Mpi, Y: Mpi) returns (r: int)
    ensures r == Sgn(X.Mag() - Y.Mag())
  {
    var i := UsedLimbs(X.p);
    var j := UsedLimbs(Y.p);
    if i == 0 && j == 0 { return 0; }
    if i > j { LongerIsLarger(X.p, i, Y.p, j); return 1; }
    if j > i { LongerIsLarger(Y.p, j, X.p, i); return -1; }
    r := CmpDigits(X.p, Y.p, i);
  }

  ghost function Signed(s: int, p: seq<Limb>): int {
    var m: int := Val(p);
    if s < 0 then -m else m
  }

  /** The signed comparison, on the (sign, limbs) of each side. */
  method CmpSigned(s: int, x: seq<Limb>, t: int, y: seq<Limb>) returns (r: int)
    requires s == 1 || s == -1
    requires t == 1 || t == -1
    ensures r == Sgn(Signed(s, x) - Signed(t, y))
  {
    var i := UsedLimbs(x);
    var j := UsedLimbs(y);
    if i == 0 && j == 0 { return 0; }
    if i > j { LongerIsLarger(x, i, y, j); return s; }
    if j > i { LongerIsLarger(y, j, x, i); return -t; }
    UsedBounds(x, i);
    UsedBounds(y, i);
    if s > 0 && t < 0 { return 1; }
    if t > 0 && s < 0 { return -1; }
    var d := CmpDigits(x, y, i);
    r := if d > 0 then s else if d < 0 then -s else 0;
  }

  method CmpMpi(X: Mpi, Y: Mpi) returns (r: int)
    requires X.Valid() && Y.Valid()
    ensures r == Sgn(X.Value() - Y.Value())
  {
    r := CmpSigned(X.s, X.p, Y.s, Y.p);
  }

  method CmpInt(X: Mpi, z: int) returns (r: int)
    requires X.Valid() && 0 - B < 2 * z < B
    ensures r == Sgn(X.Value() - z)
  {
    ValOne(Abs(z));
    r := CmpSigned(X.s, X.p, if z < 0 then -1 else 1, [Abs(z)]);
  }
}
