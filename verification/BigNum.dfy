/**
 `mbedtls_mpi`: a sign and a growable limb buffer, with the in-place limb loops
 of bignum.c. Every operation is specified by what it does to `Value()`.
 A pointer into a buffer (`X->p + j`) is the buffer and an offset.
 */
module BigNum {
  import opened Arith
  import opened Limbs
  import opened LimbOps

  /** The MBEDTLS_ERR_MPI_* codes that matter here; allocation always succeeds. */
  datatype Status = Ok | BadInput | NegativeValue | DivisionByZero | NotAcceptable

  class Mpi {
    var s: int
    var p: seq<Limb>

    ghost predicate Valid()
      reads this
    {
      s == 1 || s == -1
    }

    ghost function Mag(): nat
      reads this
    {
      Val(p)
    }

    ghost function Value(): int
      reads this
    {
      var m: int := Val(p);
      if s < 0 then -m else m
    }

    /** mbedtls_mpi_init */
    constructor ()
      ensures Valid() && s == 1 && p == []
    {
      s, p := 1, [];
    }

    /** mpi_mul_hlp: the buffer from limb `off` on gains b * src[..n]. */
    method MulHlp(n: nat, src: seq<Limb>, off: nat, b: Limb)
      requires n <= |src| && off + n < |p|
      requires Val(p[off..]) + b * Val(src[..n]) < W(|p| - off)
      modifies `p
      ensures |p| == |old(p)| && p[..off] == old(p)[..off]
      ensures Val(p[off..]) == Val(old(p)[off..]) + b * Val(src[..n])
    {
      ghost var d := Val(p[off..]);
      var c: Limb, i := 0, 0;
      assert src[..0] == [];
      while i < n
        invariant i <= n && |p| == |old(p)| && p[..off] == old(p)[..off]
        invariant Val(p[off..]) + c * W(i) == d + b * Val(src[..i])
      {
        ghost var q := p[off..];
        var r := MulAdd(src[i], b, c, p[off + i]);
        p := p[off + i := r.0];
        assert p[off..] == q[i := r.0];
        MulStep(q, i, r.0, r.1, src, b, c, d);
        c, i := r.1, i + 1;
      }
      CarryOut(off, i, c);
    }

    /** The tail of mpi_mul_hlp: the carry is added to at least one limb and to as many as it takes. */
    method CarryOut(off: nat, start: nat, carry: Limb)
      requires off + start < |p|
      requires Val(p[off..]) + carry * W(start) < W(|p| - off)
      modifies `p
      ensures |p| == |old(p)| && p[..off] == old(p)[..off]
      ensures Val(p[off..]) == Val(old(p)[off..]) + carry * W(start)
    {
      ghost var total := Val(p[off..]) + carry * W(start);
      var c: Limb, i, first := carry, start, true;
      while first || c != 0
        invariant off + i <= |p| && |p| == |old(p)| && p[..off] == old(p)[..off]
        invariant first ==> off + i < |p|
        invariant Val(p[off..]) + c * W(i) == total
        decreases |p| - i, first
      {
        ghost var q := p[off..];
        if off + i == |p| { TopCarry(Val(q), c, W(i), total); }
        var x: Limb := AddW(p[off + i], c);
        p := p[off + i := x];
        assert p[off..] == q[i := x];
        CarryStep(q, i, x, c, Bit(x < c));
        c, i, first := Bit(x < c), i + 1, false;
      }
    }

    /** mpi_sub_hlp: the buffer loses src[..n]; the borrow dies inside it. */
    method SubHlp(n: nat, src: seq<Limb>)
      requires n <= |src| && n <= |p|
      requires Val(src[..n]) <= Val(p)
      modifies `p
      ensures |p| == |old(p)|
      ensures Val(p) == Val(old(p)) - Val(src[..n])
    {
      var c: Limb, i := 0, 0;
      assert src[..0] == [];
      while i < n
        invariant i <= n && |p| == |old(p)| && c <= 1
        invariant Val(p) + Val(src[..i]) == Val(old(p)) + c * W(i)
      {
        var r := SubLimb(p[i], c, src[i]);
        SubStep(p, i, r.0, src, c, r.1);
        p := p[i := r.0];
        c, i := r.1, i + 1;
      }
      BorrowOut(i, c);
    }

    /** The tail of mpi_sub_hlp: the borrow is taken from as many limbs as it takes. */
    method BorrowOut(start: nat, borrow: Limb)
      requires start <= |p| && borrow * W(start) <= Val(p)
      modifies `p
      ensures |p| == |old(p)|
      ensures Val(p) == Val(old(p)) - borrow * W(start)
    {
      ghost var total := Val(p) - borrow * W(start);
      var c: Limb, i := borrow, start;
      while c != 0
        invariant i <= |p| == |old(p)|
        invariant Val(p) - c * W(i) == total
        decreases |p| - i
      {
        if i == |p| { TopBorrow(p, c, total); }
        var x: Limb := SubW(p[i], c);
        BorrowStep(p, i, x, c, Bit(p[i] < c));
        c := Bit(p[i] < c);
        p := p[i := x];
        i := i + 1;
      }
    }

    /** mbedtls_mpi_grow */
    method Grow(n: nat)
      modifies `p
      ensures |p| == (if |old(p)| < n then n else |old(p)|)
      ensures p[..|old(p)|] == old(p) && Val(p) == Val(old(p))
      ensures forall i :: |old(p)| <= i < |p| ==> p[i] == 0
    {
      if |p| < n {
        p := p + seq(n - |p|, _ => 0);
      }
      ValTrailing(p, |old(p)|);
    }

    /** mbedtls_mpi_copy: a self copy does nothing; otherwise the buffer never shrinks. */
    method Copy(Y: Mpi)
      requires Y.Valid()
      modifies this
      ensures Valid() && Value() == old(Y.Value()) && Mag() == old(Y.Mag())
      ensures s == old(Y.s) || Y.p == []
      ensures this == Y ==> p == old(p)
      ensures this != Y && Y.p != [] ==> |p| == Max(Sig(Y.p), |old(p)|)
    {
      if this == Y { return; }
      if Y.p == [] {
        s, p := 1, [];
        return;
      }
      var i := TopLimb(Y.p);
      i := i + 1;
      s := Y.s;
      Grow(i);
      var n := |p|;
      p := Y.p[..i] + seq(n - i, _ => 0);
      ValTrailing(Y.p, i);
      ValTrailing(p, i);
      assert p[..i] == Y.p[..i];
    }

    /** mbedtls_mpi_lset, z a signed limb */
    method Lset(z: int)
      requires 0 - B < 2 * z < B
      modifies this
      ensures Valid() && Value() == z && |p| == Max(1, |old(p)|)
      ensures s == (if z < 0 then -1 else 1)
    {
      Grow(1);
      var n := |p|;
      p := seq(n, _ => 0);
      p := p[0 := Abs(z)];
      ValTrailing(p, 1);
      s := if z < 0 then -1 else 1;
    }
  }

  function Max(a: int, b: int): int {
    if a < b then b else a
  }

  /** Limbs needed to hold q, at least one. */
  ghost function Sig(q: seq<Limb>): (n: nat)
    ensures 1 <= n <= Max(1, |q|) && (n > 1 ==> q[n - 1] != 0)
    ensures forall k :: n <= k < |q| ==> q[k] == 0
  {
    if |q| <= 1 then 1
    else if q[|q| - 1] != 0 then |q|
    else Sig(q[..|q| - 1])
  }

  /** Index of the most significant nonzero limb, 0 if there is none. */
  method TopLimb(q: seq<Limb>) returns (i: nat)
    requires |q| > 0
    ensures i < |q| && i + 1 == Sig(q)
  {
    i := |q| - 1;
    assert q[..i + 1] == q;
    while i > 0 && q[i] == 0
      invariant i < |q| && Sig(q) == Sig(q[..i + 1])
    {
      assert q[..i + 1][..i] == q[..i];
      i := i - 1;
    }
    assert |q[..i + 1]| == i + 1;
  }

  /** Number of limbs up to the most significant nonzero one. */
  method UsedLimbs(q: seq<Limb>) returns (i: nat)
    ensures i <= |q| && (i > 0 ==> q[i - 1] != 0)
    ensures forall k :: i <= k < |q| ==> q[k] == 0
    ensures Val(q) == Val(q[..i])
  {
    i := |q|;
    while i > 0 && q[i - 1] == 0
      invariant i <= |q| && forall k :: i <= k < |q| ==> q[k] == 0
    {
      i := i - 1;
    }
    ValTrailing(q, i);
  }

  // ---------- The steps of the limb loops, as equations between values ----------

  lemma TopCarry(v: nat, c: nat, w: int, total: int)
    requires w > 0 && v + c * w == total && total < w
    ensures c == 0
  {
    if c > 0 { MulLe(1, c, w); }
  }

  lemma TopBorrow(p: seq<Limb>, c: nat, total: int)
    requires Val(p) - c * W(|p|) == total >= 0
    ensures c == 0
  {
    ValBound(p);
    if c > 0 { MulLe(1, c, W(|p|)); }
  }

  lemma StepAlgebra(w: int, x: int, y: int, k: int, e: int)
    requires x - y + B * k == e
    ensures (x - y) * w + k * (B * w) == e * w
  {
    MulAssoc(k, B, w);
    MulDist(w, x - y, B * k);
  }

  /** Limb i takes a carry c and hands on k; negative c and k are borrows. */
  lemma CarryStep(q: seq<Limb>, i: nat, x: Limb, c: int, k: int)
    requires i < |q| && q[i] + c == x + B * k
    ensures Val(q[i := x]) + k * W(i + 1) == Val(q) + c * W(i)
  {
    ValUpdate(q, i, x);
    StepAlgebra(W(i), x, q[i], k, c);
  }

  lemma MulStep(q: seq<Limb>, i: nat, x: Limb, k: Limb, src: seq<Limb>, b: Limb, c: Limb, d: int)
    requires i < |q| && i < |src|
    requires x + k * B == src[i] * b + c + q[i]
    requires Val(q) + c * W(i) == d + b * Val(src[..i])
    ensures Val(q[i := x]) + k * W(i + 1) == d + b * Val(src[..i + 1])
  {
    ValUpdate(q, i, x);
    ValSnoc(src, i);
    StepAlgebra(W(i), x, q[i], k, src[i] * b + c);
    MulDist(W(i), src[i] * b, c);
    MulDist(b, Val(src[..i]), src[i] * W(i));
    MulAssoc(b, src[i], W(i));
  }

  lemma NegMul(c: int, w: int)
    ensures (0 - c) * w == 0 - c * w
  {
  }

  lemma BorrowStep(q: seq<Limb>, i: nat, x: Limb, c: int, k: int)
    requires i < |q| && x - B * k == q[i] - c
    ensures Val(q[i := x]) - k * W(i + 1) == Val(q) - c * W(i)
  {
    CarryStep(q, i, x, 0 - c, 0 - k);
    NegMul(c, W(i));
    NegMul(k, W(i + 1));
  }

  lemma SubStep(q: seq<Limb>, i: nat, x: Limb, src: seq<Limb>, c: int, k: int)
    requires i < |q| && i < |src| && x - B * k == q[i] - c - src[i]
    ensures Val(q[i := x]) + Val(src[..i + 1]) - k * W(i + 1) == Val(q) + Val(src[..i]) - c * W(i)
  {
    ValSnoc(src, i);
    BorrowStep(q, i, x, c + src[i], k);
    MulDist(W(i), c, src[i]);
  }
}
