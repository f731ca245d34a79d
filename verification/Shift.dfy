/** mbedtls_mpi_shift_l and mbedtls_mpi_shift_r: whole limbs first, then the remaining bits. */
module Shift {
  import opened Arith
  import opened Limbs
  import opened BigNum
  import opened Bits

  // ---------- One limb ----------

  /** x moves up by t bits, the t bits in c come in; the bits that leave are the second result. */
  function ShlLimb(x: Limb, t: nat, c: Limb): (r: (Limb, Limb))
    requires 0 < t < LimbBits(B) && c < Pow(2, t)
    ensures r.0 + r.1 * B == x * Pow(2, t) + c && r.1 < Pow(2, t)
  {
    var m, h := Pow(2, t), Pow(2, LimbBits(B) - t);
    assert m * h == B by { RadixSplit(t); }
    ShlParts(x, m, h);
    ((x * m) % B + c, x / h)
  }

  lemma ShlParts(x: Limb, m: int, h: int)
    requires m > 0 && h > 0 && m * h == B
    ensures (x * m) % B == (x % h) * m && 0 <= (x * m) % B <= B - m
    ensures (x * m) % B + (x / h) * B == x * m
    ensures 0 <= x / h < m && x / h < B
  {
    var q, r := x / h, x % h;
    DivModFacts(x, h);
    assert x * m == q * B + r * m by {
      MulDist(m, q * h, r);
      MulAssoc(q, h, m);
    }
    MulLe(r, h - 1, m);
    MulDist(m, h, -1);
    DivModUnique(x * m, B, q, r * m);
    assert q < m by { MulCancelLt(q, m, h); }
    MulLe(1, h, m);
  }

  /** x moves down by v bits, r holding the bits e that come down from above, f the bits that go on. */
  method ShrLimb(x: Limb, v: nat, r: Limb, ghost e: int) returns (y: Limb, r': Limb, ghost f: int)
    requires 0 < v < LimbBits(B)
    requires 0 <= e < Pow(2, v) && r == e * Pow(2, LimbBits(B) - v)
    ensures 0 <= f < Pow(2, v) && r' == f * Pow(2, LimbBits(B) - v)
    ensures e * B + x == y * Pow(2, v) + f
  {
    var m, h := Pow(2, v), Pow(2, LimbBits(B) - v);
    assert m * h == B by { RadixSplit(v); }
    ShlParts(x, h, m);
    ShrParts(x, m, h, e);
    y, r', f := x / m + r, (x * h) % B, x % m;
  }

  lemma ShrParts(x: Limb, m: int, h: int, e: int)
    requires m > 0 && h > 0 && m * h == B && 0 <= e < m && 0 <= x / m < h
    ensures 0 <= x / m + e * h < B
    ensures e * B + x == (x / m + e * h) * m + x % m
  {
    assert e * h <= B - h by {
      MulLe(e, m - 1, h);
      MulDist(h, m, -1);
    }
    calc {
      (x / m + e * h) * m + x % m;
      { MulDist(m, x / m, e * h); MulAssoc(e, h, m); }
      (x / m) * m + e * B + x % m;
      { DivModFacts(x, m); }
      e * B + x;
    }
  }

  // ---------- Left shift ----------

  /** The limb loop: the buffer moves up by v limbs, zeros come in below. */
  method LimbsUp(X: Mpi, v: nat)
    requires v <= |X.p|
    modifies X`p
    ensures X.p == seq(v, _ => 0) + old(X.p)[..|old(X.p)| - v]
  {
    ghost var x := X.p;
    var n := |X.p|;
    var i := n;
    while i > v
      invariant v <= i <= n == |X.p|
      invariant forall k :: 0 <= k < i ==> X.p[k] == x[k]
      invariant forall k :: i <= k < n ==> X.p[k] == x[k - v]
    {
      X.p := X.p[i - 1 := X.p[i - v - 1]];
      i := i - 1;
    }
    assert X.p[v..] == x[..n - v];
    ZeroBelow(X, v);
  }

  method ZeroBelow(X: Mpi, v: nat)
    requires v <= |X.p|
    modifies X`p
    ensures X.p == seq(v, _ => 0) + old(X.p)[v..]
  {
    var i := v;
    while i > 0
      invariant 0 <= i <= v <= |X.p| && X.p[v..] == old(X.p)[v..]
      invariant forall k :: i <= k < v ==> X.p[k] == 0
    {
      X.p := X.p[i - 1 := 0];
      i := i - 1;
    }
  }

  /** The bit loop, over the limbs from v up; the ones below are zero. */
  method BitsUp(X: Mpi, v: nat, t: nat)
    requires 0 < t < LimbBits(B) && v <= |X.p|
    requires forall k :: 0 <= k < v ==> X.p[k] == 0
    requires X.Mag() * Pow(2, t) < W(|X.p|)
    modifies X`p
    ensures |X.p| == |old(X.p)| && X.Mag() == old(X.Mag()) * Pow(2, t)
  {
    ghost var x, m := X.p, Pow(2, t);
    assert 1 <= m - 1 + 1 <= B by { RadixSplit(t); MulLe(1, Pow(2, LimbBits(B) - t), m); }
    var r: Limb, i := 0, v;
    ValZeros(x[..v]);
    while i < |X.p|
      invariant v <= i <= |X.p| == |x| && r < m
      invariant forall k :: i <= k < |x| ==> X.p[k] == x[k]
      invariant Val(X.p) + r * W(i) == Val(x) + (m - 1) * Val(x[..i])
    {
      var y := ShlLimb(X.p[i], t, r);
      MulDist(x[i], m, -1);
      MulStep(X.p, i, y.0, y.1, x, m - 1, r, Val(x));
      X.p := X.p[i := y.0];
      r, i := y.1, i + 1;
    }
    assert x[..i] == x;
    MulDist(Val(x), m - 1, 1);
    TopCarry(Val(X.p), r, W(i), Val(x) * m);
  }

  function BitsToLimbs(n: nat): nat {
    n / LimbBits(B) + (if n % LimbBits(B) != 0 then 1 else 0)
  }

  /** mbedtls_mpi_shift_l. A grown buffer has no spare top limb. */
  method ShiftL(X: Mpi, count: nat)
    modifies X`p
    ensures X.Mag() == old(X.Mag()) * Pow(2, count)
    ensures |X.p| == |old(X.p)| || (|X.p| > |old(X.p)| && (X.Mag() > 0 ==> W(|X.p| - 1) <= X.Mag()))
    ensures |X.p| * LimbBits(B) >= count
  {
    var n := BitLen(X);
    var i := n + count;
    if |X.p| * LimbBits(B) < i { X.Grow(BitsToLimbs(i)); }
    LimbsCover(i, |X.p|);
    ShiftFits(X.Mag(), n, count, |X.p|);
    ShiftWithin(X, count);
  }

  method ShiftWithin(X: Mpi, count: nat)
    requires X.Mag() * Pow(2, count) < W(|X.p|) && |X.p| * LimbBits(B) >= count
    modifies X`p
    ensures X.Mag() == old(X.Mag()) * Pow(2, count) && |X.p| == |old(X.p)|
  {
    var v, t := count / LimbBits(B), count % LimbBits(B);
    ghost var x := X.p;
    CountSplit(count, |x|);
    if v > 0 { LimbsUp(X, v); }
    assert X.p == seq(v, _ => 0) + x[..|x| - v];
    LimbsUpValue(x, X.p, v, Pow(2, t));
    if t > 0 { BitsUp(X, v, t); }
  }

  lemma CountSplit(count: nat, n: nat)
    requires n * LimbBits(B) >= count
    ensures count / LimbBits(B) <= n
    ensures Pow(2, count) == W(count / LimbBits(B)) * Pow(2, count % LimbBits(B))
  {
    var l := LimbBits(B);
    DivModFacts(count, l);
    MulCancelLt(count / l, n + 1, l);
    Pow2Limbs(count / l, count % l);
  }

  /** Enough limbs for i bits; a buffer of exactly that many has a bit in its top limb. */
  lemma LimbsCover(i: nat, n: nat)
    requires n * LimbBits(B) >= i || n == BitsToLimbs(i)
    ensures n * LimbBits(B) >= i
    ensures Pow(2, i) <= W(n)
    ensures i > 0 && n == BitsToLimbs(i) ==> n > 0 && W(n - 1) <= Pow(2, i - 1)
  {
    var l := LimbBits(B);
    DivModFacts(i, l);
    MulDist(l, i / l, 1);
    assert l * n == n * l;
    Pow2Limbs(n, 0);
    PowMono(2, i, n * l);
    if i > 0 && n == BitsToLimbs(i) {
      assert (n - 1) * l <= i - 1 by { MulDist(l, n - 1, 1); }
      Pow2Limbs(n - 1, 0);
      PowMono(2, (n - 1) * l, i - 1);
    }
  }

  lemma ShiftFits(x: nat, n: nat, count: nat, len: nat)
    requires IsBitLen(x, n) && Pow(2, n + count) <= W(len)
    ensures x * Pow(2, count) < W(len)
    ensures x > 0 ==> Pow(2, n + count - 1) <= x * Pow(2, count)
  {
    if x > 0 {
      MulLt(x, Pow(2, n), Pow(2, count));
      PowAdd(2, n, count);
      MulLe(Pow(2, n - 1), x, Pow(2, count));
      PowAdd(2, n - 1, count);
    }
  }

  lemma LimbsUpValue(x: seq<Limb>, y: seq<Limb>, v: nat, m: int)
    requires v <= |x| && y == seq(v, _ => 0) + x[..|x| - v]
    requires m > 0 && Val(x) * (W(v) * m) < W(|x|)
    ensures Val(y) == Val(x) * W(v) && |y| == |x|
    ensures Val(y) * m == Val(x) * (W(v) * m)
  {
    var z := seq(v, _ => 0);
    var n := |x| - v;
    MulAssoc(Val(x), W(v), m);
    MulLe(1, m, Val(x) * W(v));
    assert Val(x) * W(v) < W(n) * W(v) by { PowAdd(B, n, v); }
    MulCancelLt(Val(x), W(n), W(v));
    ValHighZero(x, n);
    ValConcat(z, x[..n]);
    ValZeros(z);
  }

  // ---------- Right shift ----------

  /** The limb loop: the buffer moves down by v limbs, zeros come in at the top. */
  method LimbsDown(X: Mpi, v: nat)
    requires v <= |X.p|
    modifies X`p
    ensures X.p == old(X.p)[v..] + seq(v, _ => 0)
  {
    ghost var x := X.p;
    var n := |X.p|;
    var i := 0;
    while i < n - v
      invariant 0 <= i <= n - v && |X.p| == n
      invariant forall k :: 0 <= k < i ==> X.p[k] == x[k + v]
      invariant forall k :: i <= k < n ==> X.p[k] == x[k]
    {
      X.p := X.p[i := X.p[i + v]];
      i := i + 1;
    }
    assert X.p[..n - v] == x[v..];
    ZeroFrom(X, n - v);
  }

  method ZeroFrom(X: Mpi, from: nat)
    requires from <= |X.p|
    modifies X`p
    ensures X.p == old(X.p)[..from] + seq(|old(X.p)| - from, _ => 0)
  {
    var i := from;
    while i < |X.p|
      invariant from <= i <= |X.p| == |old(X.p)| && X.p[..from] == old(X.p)[..from]
      invariant forall k :: from <= k < i ==> X.p[k] == 0
    {
      X.p := X.p[i := 0];
      i := i + 1;
    }
  }

  /** The bit loop, from the top limb down: an exact division with remainder. */
  method BitsDown(X: Mpi, v: nat)
    requires 0 < v < LimbBits(B)
    modifies X`p
    ensures |X.p| == |old(X.p)| && X.Mag() == old(X.Mag()) / Pow(2, v)
  {
    ghost var x, m := X.p, Pow(2, v);
    var i, r: Limb := |X.p|, 0;
    ghost var e := 0;
    assert x[i..] == [];
    while i > 0
      invariant 0 <= i <= |X.p| == |x|
      invariant 0 <= e < m && r == e * Pow(2, LimbBits(B) - v)
      invariant forall k :: 0 <= k < i ==> X.p[k] == x[k]
      invariant Val(x[i..]) == m * Val(X.p[i..]) + e
    {
      ghost var q := X.p;
      var y, r', f := ShrLimb(X.p[i - 1], v, r, e);
      X.p := X.p[i - 1 := y];
      assert Val(x[i - 1..]) == m * Val(X.p[i - 1..]) + f by {
        assert X.p[i..] == q[i..];
        ValHead(x, i - 1);
        ValHead(X.p, i - 1);
        ShrStep(Val(x[i - 1..]), x[i - 1], Val(x[i..]), Val(X.p[i - 1..]), y, Val(q[i..]), m, e, f);
      }
      e, r, i := f, r', i - 1;
    }
    assert x[0..] == x && X.p[0..] == X.p;
    QuotientIs(Val(x), m, Val(X.p), e);
  }

  lemma QuotientIs(a: int, m: int, q: int, r: int)
    requires a == m * q + r && 0 <= r < m
    ensures a / m == q
  {
    DivModUnique(a, m, q, r);
  }

  /** tx = x + B*v and ty = y + B*u: division by m, one limb further down. */
  lemma ShrStep(tx: int, x: int, v: int, ty: int, y: int, u: int, m: int, e: int, f: int)
    requires tx == x + B * v && ty == y + B * u
    requires v == m * u + e && e * B + x == y * m + f
    ensures tx == m * ty + f
  {
    calc {
      x + B * (m * u + e);
      { MulDist(B, m * u, e); MulAssoc(B, m, u); MulAssoc(m, B, u); }
      x + e * B + m * (B * u);
      m * y + m * (B * u) + f;
      { MulDist(m, y, B * u); }
      m * (y + B * u) + f;
    }
  }

  /** mbedtls_mpi_shift_r, rounding the magnitude down; a shift past the buffer resets the sign too. */
  method ShiftR(X: Mpi, count: nat)
    requires X.Valid()
    modifies X
    ensures X.Valid() && X.Mag() == old(X.Mag()) / Pow(2, count)
    ensures X.s == old(X.s) || (X.s == 1 && X.Mag() == 0)
    ensures |X.p| == |old(X.p)| || |old(X.p)| == 0
  {
    var v, t := count / LimbBits(B), count % LimbBits(B);
    ghost var x := X.p;
    if v > |X.p| || (v == |X.p| && t > 0) {
      ShiftedOut(x, count);
      X.Lset(0);
      return;
    }
    if v > 0 { LimbsDown(X, v); }
    assert X.p == x[v..] + seq(v, _ => 0);
    LimbsDownValue(x, X.p, v);
    if t > 0 { BitsDown(X, t); }
    DivSteps(Val(x), count);
  }

  lemma ShiftedOut(x: seq<Limb>, count: nat)
    requires count / LimbBits(B) >= |x|
    ensures Val(x) / Pow(2, count) == 0
  {
    var l := LimbBits(B);
    DivModFacts(count, l);
    Pow2Limbs(count / l, count % l);
    ValBound(x);
    WMono(|x|, count / l);
    MulLe(1, Pow(2, count % l), W(count / l));
    ModSmall(Val(x), Pow(2, count));
  }

  lemma LimbsDownValue(x: seq<Limb>, y: seq<Limb>, v: nat)
    requires v <= |x| && y == x[v..] + seq(v, _ => 0)
    ensures Val(y) == Val(x) / W(v)
  {
    ValTrailing(y, |x| - v);
    assert y[..|x| - v] == x[v..];
    ValSplit(x, v);
    ValBound(x[..v]);
    DivModUnique(Val(x), W(v), Val(x[v..]), Val(x[..v]));
  }

  lemma DivSteps(x: nat, count: nat)
    ensures (x / W(count / LimbBits(B))) / Pow(2, count % LimbBits(B)) == x / Pow(2, count)
  {
    var l := LimbBits(B);
    DivModFacts(count, l);
    Pow2Limbs(count / l, count % l);
    DivDiv(x, W(count / l), Pow(2, count % l));
  }
}
