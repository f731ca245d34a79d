/** Signed and unsigned addition and subtraction, HAC 14.7 and 14.9. */
module AddSub {
  import opened Arith
  import opened Limbs
  import opened LimbOps
  import opened BigNum
  import opened Compare

  /** mbedtls_mpi_add_abs: X = |A| + |Y|; X may be either operand. */
  method AddAbs(X: Mpi, A: Mpi, Y: Mpi)
    requires A.Valid() && Y.Valid()
    modifies X
    ensures X.Valid() && X.s == 1 && X.Mag() == old(A.Mag()) + old(Y.Mag())
    ensures old(A.p) != [] && old(Y.p) != [] ==> |X.p| >= |old(X.p)|
  {
    var a, y := A, Y;
    if X == y { a, y := X, a; }
    if X != a { X.Copy(a); }
    X.s := 1;
    var j := UsedLimbs(y.p);
    ghost var digits := y.p[..j];
    X.Grow(j);
    assert y.p[..j] == digits;
    AddLoop(X, y, j);
  }

  /** The limb loops of mbedtls_mpi_add_abs: X gains the first j limbs of Y, possibly X itself. */
  method AddLoop(X: Mpi, Y: Mpi, j: nat)
    requires j <= |X.p| && j <= |Y.p|
    modifies X`p
    ensures X.Mag() == old(X.Mag()) + Val(old(Y.p)[..j])
    ensures |X.p| >= |old(X.p)|
  {
    ghost var x, y := X.p, Y.p;
    var c: Limb, i := 0, 0;
    assert y[..0] == [];
    while i < j
      invariant i <= j && |X.p| == |x| && c <= 1 && |Y.p| == |y|
      invariant forall k :: i <= k < j ==> Y.p[k] == y[k]
      invariant Val(X.p) + c * W(i) == Val(x) + 1 * Val(y[..i])
    {
      var r := AddLimb(X.p[i], c, Y.p[i]);
      MulStep(X.p, i, r.0, r.1, y, 1, c, Val(x));
      X.p := X.p[i := r.0];
      c, i := r.1, i + 1;
    }
    GrowCarry(X, i, c);
  }

  /** A carry left over runs on, out of the top limb into a grown buffer if it has to. */
  method GrowCarry(X: Mpi, start: nat, carry: Limb)
    requires start <= |X.p| && carry <= 1
    modifies X`p
    ensures X.Mag() == old(X.Mag()) + carry * W(start) && |X.p| >= |old(X.p)|
  {
    var c: Limb, i := carry, start;
    while c != 0
      invariant 0 <= i <= |X.p| && c <= 1 && |X.p| >= |old(X.p)|
      invariant Val(X.p) + c * W(i) == old(X.Mag()) + carry * W(start)
      decreases c, |X.p| - i
    {
      if i >= |X.p| { X.Grow(i + 1); }
      var x: Limb := AddW(X.p[i], c);
      CarryStep(X.p, i, x, c, Bit(x < c));
      c := Bit(x < c);
      X.p := X.p[i := x];
      i := i + 1;
    }
  }

  /** An operand that the result would overwrite is copied to a temporary. */
  method Unalias(X: Mpi, Y: Mpi) returns (y: Mpi)
    requires Y.Valid()
    ensures y != X && y.Valid() && y.Value() == Y.Value() && y.Mag() == Y.Mag()
    ensures y == Y || fresh(y)
    ensures X != Y ==> y == Y
  {
    y := Y;
    if X == Y {
      y := new Mpi();
      y.Copy(Y);
    }
  }

  /** mbedtls_mpi_sub_abs: X = |A| - |Y|; fails, changing nothing, when |A| < |Y|. */
  method SubAbs(X: Mpi, A: Mpi, Y: Mpi) returns (ok: bool)
    requires A.Valid() && Y.Valid()
    modifies X
    ensures ok <==> old(Y.Mag()) <= old(A.Mag())
    ensures ok ==> X.Valid() && X.s == 1 && X.Mag() == old(A.Mag()) - old(Y.Mag())
    ensures old(A.p) != [] ==> |X.p| >= |old(X.p)|
    ensures !ok ==> X.s == old(X.s) && X.p == old(X.p)
  {
    var d := CmpAbs(A, Y);
    if d < 0 { return false; }
    var b := Unalias(X, Y);
    if X != A { X.Copy(A); }
    X.s := 1;
    var n := UsedLimbs(b.p);
    UsedFits(b.p, n, X.p);
    X.SubHlp(n, b.p);
    return true;
  }

  lemma UsedFits(q: seq<Limb>, n: nat, x: seq<Limb>)
    requires n <= |q| && (n > 0 ==> q[n - 1] != 0) && Val(q) == Val(q[..n])
    requires Val(q) <= Val(x)
    ensures n <= |x|
  {
    if n > |x| {
      UsedBounds(q, n);
      ValBound(x);
      WMono(|x|, n - 1);
    }
  }

  /** mbedtls_mpi_add_mpi: X = A + Y, any of the three possibly the same object. */
  method AddMpi(X: Mpi, A: Mpi, Y: Mpi)
    requires A.Valid() && Y.Valid()
    modifies X
    ensures X.Valid() && X.Value() == old(A.Value()) + old(Y.Value()) && (old(A.s) == old(Y.s) ==> X.s == old(A.s))
    ensures old(A.p) != [] && old(Y.p) != [] ==> |X.p| >= |old(X.p)|
  {
    var s := A.s;
    if A.s * Y.s < 0 {
      var d := CmpAbs(A, Y);
      if d >= 0 {
        var _ := SubAbs(X, A, Y);
        X.s := s;
      } else {
        var _ := SubAbs(X, Y, A);
        X.s := -s;
      }
    } else {
      AddAbs(X, A, Y);
      X.s := s;
    }
  }

  /** mbedtls_mpi_sub_mpi: X = A - Y. */
  method SubMpi(X: Mpi, A: Mpi, Y: Mpi)
    requires A.Valid() && Y.Valid()
    modifies X
    ensures X.Valid() && X.Value() == old(A.Value()) - old(Y.Value()) && (old(A.s) != old(Y.s) ==> X.s == old(A.s))
    ensures old(A.p) != [] && old(Y.p) != [] ==> |X.p| >= |old(X.p)|
  {
    var s := A.s;
    if A.s * Y.s > 0 {
      var d := CmpAbs(A, Y);
      if d >= 0 {
        var _ := SubAbs(X, A, Y);
        X.s := s;
      } else {
        var _ := SubAbs(X, Y, A);
        X.s := -s;
      }
    } else {
      AddAbs(X, A, Y);
      X.s := s;
    }
  }

  /** The one-limb operand the _int variants build on the stack. */
  method SmallMpi(z: int) returns (Y: Mpi)
    requires 0 - B < z < B
    ensures fresh(Y) && Y.Valid() && Y.Value() == z && |Y.p| == 1 && Y.s == (if z < 0 then -1 else 1)
  {
    Y := new Mpi();
    Y.s, Y.p := if z < 0 then -1 else 1, [Abs(z)];
    ValOne(Abs(z));
  }

  method AddInt(X: Mpi, A: Mpi, z: int)
    requires A.Valid() && 0 - B < 2 * z < B
    modifies X
    ensures X.Valid() && X.Value() == old(A.Value()) + z && (old(A.s) == 1 && z >= 0 ==> X.s == 1)
  {
    var y := SmallMpi(z);
    AddMpi(X, A, y);
  }

  method SubInt(X: Mpi, A: Mpi, z: int)
    requires A.Valid() && 0 - B < 2 * z < B
    modifies X
    ensures X.Valid() && X.Value() == old(A.Value()) - z && (old(A.s) == -1 && z >= 0 ==> X.s == -1)
  {
    var y := SmallMpi(z);
    SubMpi(X, A, y);
  }
}
