/**
 mbedtls_mpi_div_mpi: schoolbook long division with a digit estimate and one
 add-back (HAC 14.20), and mbedtls_mpi_mod_mpi.
 */
module Division {
  import opened Arith
  import opened Limbs
  import opened LimbOps
  import opened BigNum
  import opened Compare
  import opened AddSub
  import opened Multiply
  import opened Bits
  import opened Shift
  import opened IntDiv

  // ---------- The digit estimate ----------

  /** z is the quotient digit of x by y, or one more. */
  ghost predicate IsNearDigit(x: int, y: int, z: int) {
    x < (z + 1) * y && (z - 1) * y <= x
  }

  /** The limbs an estimate looks at: two of the divisor, three of the dividend. */
  ghost function Top2(y: seq<Limb>, t: nat): int
    requires t < |y|
  {
    y[t] * B + (if t < 1 then 0 else y[t - 1])
  }

  ghost function Top3(x: seq<Limb>, i: nat): int
    requires 1 <= i < |x|
  {
    (x[i] * B + x[i - 1]) * B + (if i < 2 then 0 else x[i - 2])
  }

  lemma Top2Value(y: seq<Limb>, t: nat)
    requires 1 <= t < |y| && Val(y) < W(t + 1)
    ensures Top2(y, t) * W(t - 1) <= Val(y) < (Top2(y, t) + 1) * W(t - 1)
  {
    ValHighZero(y, t + 1);
    ValSnoc(y, t);
    ValSnoc(y, t - 1);
    ValBound(y[..t - 1]);
    MulDist(W(t - 1), y[t] * B, y[t - 1]);
    MulAssoc(y[t], B, W(t - 1));
    MulDist(W(t - 1), Top2(y, t), 1);
  }

  lemma TopPair(x: seq<Limb>, i: nat)
    requires 1 <= i < |x| && Val(x) < W(i + 1)
    ensures (x[i] * B + x[i - 1]) * W(i - 1) <= Val(x) < (x[i] * B + x[i - 1] + 1) * W(i - 1)
  {
    Top2Value(x, i);
  }

  lemma Top3Value(x: seq<Limb>, i: nat)
    requires 2 <= i < |x| && Val(x) < W(i + 1)
    ensures Top3(x, i) * W(i - 2) <= Val(x) < (Top3(x, i) + 1) * W(i - 2)
  {
    ValHighZero(x, i + 1);
    ValSnoc(x, i);
    ValSnoc(x, i - 1);
    ValSnoc(x, i - 2);
    ValBound(x[..i - 2]);
    var p := x[i] * B + x[i - 1];
    assert x[i] * W(i) + x[i - 1] * W(i - 1) == p * W(i - 1) by {
      MulDist(W(i - 1), x[i] * B, x[i - 1]);
      MulAssoc(x[i], B, W(i - 1));
    }
    MulAssoc(p, B, W(i - 2));
    MulDist(W(i - 2), p * B, x[i - 2]);
    MulDist(W(i - 2), Top3(x, i), 1);
  }

  /**
   What the two tops mean for x and y = val(y) * W(i - t - 1): with a common weight v,
   y lies in [yt, yt + 1) and x in [xt, xt + 1), and the limb test compares z * yt with xt.
   */
  ghost predicate IsTop(x: int, y: int, z: int, passes: bool, yt: int, xt: int, v: int) {
    && v > 0 && 0 <= yt && 0 <= xt && yt * v <= y && xt * v <= x < (xt + 1) * v
    && (passes <==> z * yt <= xt)
    && (y == yt * v || (y < (yt + 1) * v && B <= yt))
  }

  lemma TestMeaning(x: seq<Limb>, i: nat, y: seq<Limb>, t: nat, z: Limb) returns (yt: int, xt: int, v: int)
    requires t < i < |x| && t < |y| && Val(x) < W(i + 1) && Val(y) < W(t + 1) && y[t] > 0
    ensures IsTop(Val(x), Val(y) * W(i - t - 1), z, z * Top2(y, t) <= Top3(x, i), yt, xt, v)
  {
    if t >= 1 {
      yt, xt, v := Top2(y, t), Top3(x, i), W(i - 2);
      TwoLimbTest(x, i, y, t, z);
    } else {
      yt, xt, v := y[0], x[i] * B + x[i - 1], W(i - 1);
      OneLimbTest(x, i, y, z);
    }
  }

  lemma TwoLimbTest(x: seq<Limb>, i: nat, y: seq<Limb>, t: nat, z: Limb)
    requires 1 <= t < i < |x| && t < |y| && Val(x) < W(i + 1) && Val(y) < W(t + 1) && y[t] > 0
    ensures IsTop(Val(x), Val(y) * W(i - t - 1), z, z * Top2(y, t) <= Top3(x, i), Top2(y, t), Top3(x, i), W(i - 2))
  {
    var yt, xt := Top2(y, t), Top3(x, i);
    assert B <= yt by { MulLe(1, y[t], B); }
    assert 0 <= xt by { MulLe(0, x[i], B); MulLe(0, x[i] * B + x[i - 1], B); }
    Top2Value(y, t);
    Top3Value(x, i);
    ScaleTop(Val(y), yt, W(t - 1), W(i - t - 1));
    assert W(t - 1) * W(i - t - 1) == W(i - 2) by { PowAdd(B, t - 1, i - t - 1); }
  }

  lemma OneLimbTest(x: seq<Limb>, i: nat, y: seq<Limb>, z: Limb)
    requires 0 < i < |x| && 0 < |y| && Val(x) < W(i + 1) && Val(y) < W(1)
    ensures IsTop(Val(x), Val(y) * W(i - 1), z, z * Top2(y, 0) <= Top3(x, i), y[0], x[i] * B + x[i - 1], W(i - 1))
  {
    var xt := x[i] * B + x[i - 1];
    assert 0 <= xt by { MulLe(0, x[i], B); }
    TopPair(x, i);
    assert Val(y) == y[0] by {
      ValHighZero(y, 1);
      assert y[..1] == [y[0]];
      ValOne(y[0]);
    }
    DropDigit(z, y[0], xt, Top3(x, i) - xt * B);
  }

  lemma ScaleTop(y: int, yt: int, w: int, p: int)
    requires p > 0 && yt * w <= y < (yt + 1) * w
    ensures yt * (w * p) <= y * p < (yt + 1) * (w * p)
  {
    MulLe(yt * w, y, p);
    MulLt(y, (yt + 1) * w, p);
    MulAssoc(yt, w, p);
    MulAssoc(yt + 1, w, p);
  }

  lemma DropDigit(z: int, y: int, x: int, low: Limb)
    ensures z * (y * B + 0) <= x * B + low <==> z * y <= x
  {
    MulAssoc(z, y, B);
    if z * y <= x { MulLe(z * y, x, B); } else { MulLe(x + 1, z * y, B); MulDist(B, x, 1); }
  }

  /** A digit that fails the test is too large; one that passes is at most one too large. */
  lemma TestDecides(x: int, y: int, z: Limb, passes: bool, yt: int, xt: int, v: int)
    requires IsTop(x, y, z, passes, yt, xt, v)
    ensures !passes ==> x < z * y
    ensures passes ==> (z - 1) * y <= x
  {
    if !passes {
      MulLe(xt + 1, z * yt, v);
      MulAssoc(z, yt, v);
      MulLe(yt * v, y, z);
    } else if z >= 1 {
      OneTooLarge(x, y, z, yt, xt, v);
    } else {
      MulLe(0, xt, v);
      MulLe(0, yt, v);
    }
  }

  lemma OneTooLarge(x: int, y: int, z: Limb, yt: int, xt: int, v: int)
    requires IsTop(x, y, z, true, yt, xt, v) && z >= 1
    ensures (z - 1) * y <= x
  {
    var c := z - 1;
    assert c * y <= (z * yt) * v by {
      if y == yt * v {
        MulLe(c, z, yt);
        MulLe(c * yt, z * yt, v);
        MulAssoc(c, yt, v);
      } else {
        MulLe(y, (yt + 1) * v, c);
        MulAssoc(c, yt + 1, v);
        MulDist(c, yt, 1);
        MulDist(yt, c, 1);
        MulLe(c * (yt + 1), z * yt, v);
      }
    }
    MulLe(z * yt, xt, v);
  }

  /** The first estimate, from one divisor limb, is never too small. */
  lemma FirstEstimate(x: seq<Limb>, i: nat, y: seq<Limb>, t: nat, z: Limb)
    requires t < i < |x| && t < |y| && Val(x) < Val(y) * W(i - t)
    requires Val(x) < W(i + 1) && Val(y) < W(t + 1) && y[t] > 0
    requires z == B - 1 || x[i] * B + x[i - 1] < (z + 1) * y[t]
    ensures Val(x) < (z + 1) * (Val(y) * W(i - t - 1))
  {
    var p := W(i - t - 1);
    if z == B - 1 {
      MulAssoc(Val(y), B, p);
      MulAssoc(B, Val(y), p);
    } else {
      TopPair(x, i);
      TopAlone(y, t);
      PowAdd(B, t, i - t - 1);
      EstimateScaled(Val(x), Val(y), z + 1, x[i] * B + x[i - 1], y[t], W(t), p);
    }
  }

  lemma TopAlone(y: seq<Limb>, t: nat)
    requires t < |y| && Val(y) < W(t + 1)
    ensures y[t] * W(t) <= Val(y)
  {
    ValHighZero(y, t + 1);
    ValSnoc(y, t);
  }

  lemma EstimateScaled(x: int, y: int, c: int, xm: int, yt: int, w: int, p: int)
    requires x < (xm + 1) * (w * p) && xm < c * yt && yt * w <= y && w > 0 && p > 0 && c >= 0
    ensures x < c * (y * p)
  {
    MulLe(xm + 1, c * yt, w * p);
    MulAssoc(c, yt, w * p);
    MulAssoc(yt, w, p);
    MulLe(yt * w, y, p);
    MulLe((yt * w) * p, y * p, c);
  }

  /** One pass of the do loop: T1 = z * top of Y, T2 = top of X, and their comparison. */
  method DigitTest(X: Mpi, Y: Mpi, T1: Mpi, T2: Mpi, i: nat, t: nat, z: Limb) returns (passes: bool)
    requires T1 != X && T1 != Y && T2 != X && T2 != Y && T1 != T2
    requires t < i < |X.p| && t < |Y.p| && |T1.p| >= 2 && |T2.p| >= 3
    modifies T1, T2
    ensures |T1.p| >= 2 && |T2.p| >= 3 && T1.Valid()
    ensures passes <==> z * Top2(Y.p, t) <= Top3(X.p, i)
  {
    LoadDivisor(T1, Y, t, z);
    T2.Lset(0);
    LoadThree(T2, if i < 2 then 0 else X.p[i - 2], X.p[i - 1], X.p[i]);
    var c := CmpMpi(T1, T2);
    passes := c <= 0;
  }

  method LoadDivisor(T: Mpi, Y: Mpi, t: nat, z: Limb)
    requires T != Y && t < |Y.p| && |T.p| >= 2
    modifies T
    ensures |T.p| >= 2 && T.Valid() && T.Value() == z * Top2(Y.p, t)
  {
    T.Lset(0);
    LoadTwo(T, if t < 1 then 0 else Y.p[t - 1], Y.p[t]);
    MulInt(T, T, z);
  }

  method LoadTwo(T: Mpi, a: Limb, b: Limb)
    requires |T.p| >= 2 && T.Mag() == 0
    modifies T`p
    ensures |T.p| == |old(T.p)| && T.Mag() == b * B + a
  {
    ValHighZero(T.p, 0);
    T.p := T.p[0 := a];
    T.p := T.p[1 := b];
    ValTrailing(T.p, 2);
    assert T.p[..2] == [a, b];
    ValPair(a, b);
  }

  method LoadThree(T: Mpi, a: Limb, b: Limb, c: Limb)
    requires |T.p| >= 3 && T.Mag() == 0
    modifies T`p
    ensures |T.p| == |old(T.p)| && T.Mag() == (c * B + b) * B + a
  {
    ValHighZero(T.p, 0);
    T.p := T.p[0 := a];
    T.p := T.p[1 := b];
    T.p := T.p[2 := c];
    ValTrailing(T.p, 3);
    assert T.p[..3] == [a, b, c] && [a, b, c][1..] == [b, c];
    ValPair(b, c);
  }

  lemma ValPair(a: Limb, b: Limb)
    ensures Val([a, b]) == b * B + a
  {
    assert [a, b][1..] == [b];
    ValOne(b);
  }

  /** Z[i-t-1]: the estimate, then the do loop that lowers it while the two-limb test fails. */
  method EstimateDigit(X: Mpi, Y: Mpi, T1: Mpi, T2: Mpi, i: nat, t: nat) returns (z: Limb)
    requires T1 != X && T1 != Y && T2 != X && T2 != Y && T1 != T2
    requires t < i < |X.p| && t < |Y.p| && |T1.p| >= 2 && |T2.p| >= 3
    requires X.Mag() < Y.Mag() * W(i - t) && Y.Mag() < W(t + 1) && Y.p[t] > 0
    modifies T1, T2
    ensures |T1.p| >= 2 && |T2.p| >= 3
    ensures IsNearDigit(X.Mag(), Y.Mag() * W(i - t - 1), z)
  {
    TopIndex(X.Mag(), Y.Mag(), i, t);
    ghost var y := Y.Mag() * W(i - t - 1);
    if X.p[i] >= Y.p[t] {
      z := B - 1;
    } else {
      var r;
      z, r := IntDivInt(X.p[i], X.p[i - 1], Y.p[t]);
      MulDist(Y.p[t], z, 1);
    }
    FirstEstimate(X.p, i, Y.p, t, z);
    var passes := false;
    // the digit is lowered as long as the test fails
    var up: Limb := AddW(z, 1);
    z := SubW(up, 1);
    while !passes
      invariant |T1.p| >= 2 && |T2.p| >= 3
      invariant X.Mag() < (z + 1) * y
      invariant passes ==> (z - 1) * y <= X.Mag()
      decreases !passes, z
    {
      passes := DigitTest(X, Y, T1, T2, i, t, z);
      ghost var yt, xt, v := TestMeaning(X.p, i, Y.p, t, z);
      TestDecides(X.Mag(), y, z, passes, yt, xt, v);
      if !passes {
        assert z > 0;
        z := SubW(z, 1);
      }
    }
  }

  lemma TopIndex(x: int, y: int, i: nat, t: nat)
    requires t < i && x < y * W(i - t) && y < W(t + 1)
    ensures x < W(i + 1)
  {
    PowAdd(B, t + 1, i - t);
    MulLe(y, W(t + 1), W(i - t));
  }

  // ---------- Multiply, subtract, add back ----------

  /** Subtracts the digit's multiple; an estimate one too large is repaired by one add-back. */
  method SubtractDigit(X: Mpi, Y: Mpi, T1: Mpi, pos: nat, est: Limb) returns (z: Limb)
    requires T1 != X && T1 != Y && X != Y && X.Valid() && Y.Valid()
    requires X.Value() >= 0 && Y.s == 1 && Y.Mag() > 0 && X.p != [] && |T1.p| >= 2
    requires IsNearDigit(X.Value(), Y.Mag() * W(pos), est)
    modifies X, T1
    ensures X.Valid() && |X.p| >= |old(X.p)| && |T1.p| >= 2
    ensures 0 <= X.Value() < Y.Mag() * W(pos)
    ensures X.Value() == old(X.Value()) - z * (Y.Mag() * W(pos))
  {
    ghost var x, y := X.Value(), Y.Mag() * W(pos);
    z := est;
    MulInt(T1, Y, z);
    ScaleDigit(T1.Value(), Y.Mag(), z, W(pos), y);
    ShiftByLimbs(T1, pos);
    SubMpi(X, X, T1);
    NearRange(x, y, z);
    var c := CmpInt(X, 0);
    if c < 0 {
      AddBack(X, Y, T1, pos);
      z := SubW(z, 1);
    }
  }

  lemma ScaleDigit(v: int, m: int, z: int, w: int, y: int)
    requires v == m * z && y == m * w
    ensures v * w == z * y
  {
    MulAssoc(z, m, w);
  }

  method AddBack(X: Mpi, Y: Mpi, T1: Mpi, pos: nat)
    requires T1 != X && T1 != Y && X != Y && X.Valid() && Y.Valid()
    requires Y.s == 1 && Y.p != [] && X.p != [] && |T1.p| >= 2
    modifies X, T1
    ensures X.Valid() && |X.p| >= |old(X.p)| && |T1.p| >= 2
    ensures X.Value() == old(X.Value()) + Y.Mag() * W(pos)
  {
    T1.Copy(Y);
    ShiftByLimbs(T1, pos);
    AddMpi(X, X, T1);
  }

  lemma NearRange(x: int, y: int, z: int)
    requires IsNearDigit(x, y, z) && x >= 0 && y > 0
    ensures -y <= x - z * y < y && x - (z - 1) * y == x - z * y + y
    ensures x - z * y < 0 ==> z > 0
  {
    MulDist(y, z, 1);
    MulDist(y, z, -1);
    if z <= 0 { MulLe(z, 0, y); }
  }

  method ShiftByLimbs(T: Mpi, pos: nat)
    modifies T`p
    ensures T.Value() == old(T.Value()) * W(pos) && |T.p| >= |old(T.p)|
  {
    Pow2Limbs(pos, 0);
    ShiftL(T, LimbBits(B) * pos);
    NegMul(old(T.Mag()), W(pos));
  }

  // ---------- The digits from the top down ----------

  /** The main loop: one digit of Z and one limb less of X per round. */
  method DivLoop(X: Mpi, Y: Mpi, Z: Mpi, T1: Mpi, T2: Mpi, n: nat, t: nat)
    requires Distinct(X, Y, Z, T1, T2) && X.Valid() && Y.Valid() && Y.s == 1
    requires t <= n < |X.p| && t < |Y.p| && n - t < |Z.p| && |T1.p| >= 2 && |T2.p| >= 3
    requires Y.Mag() < W(t + 1) && Y.p[t] > 0
    requires 0 <= X.Value() < Y.Mag() * W(n - t)
    requires forall k :: 0 <= k < n - t ==> Z.p[k] == 0
    modifies X, Z`p, T1, T2
    ensures X.Valid() && X.p != [] && |Z.p| == |old(Z.p)|
    ensures 0 <= X.Value() < Y.Mag()
    ensures Z.Mag() * Y.Mag() + X.Value() == old(Z.Mag()) * Y.Mag() + old(X.Value())
  {
    var i := n;
    while i > t
      invariant t <= i <= n && X.Valid() && n < |X.p| && |Z.p| == |old(Z.p)| && |T1.p| >= 2 && |T2.p| >= 3
      invariant 0 <= X.Value() < Y.Mag() * W(i - t)
      invariant forall k :: 0 <= k < i - t ==> Z.p[k] == 0
      invariant Z.Mag() * Y.Mag() + X.Value() == old(Z.Mag()) * Y.Mag() + old(X.Value())
    {
      var est := EstimateDigit(X, Y, T1, T2, i, t);
      ghost var x := X.Value();
      var z := SubtractDigit(X, Y, T1, i - t - 1, est);
      ValUpdate(Z.p, i - t - 1, z);
      StoreDigit(Z.Mag(), Y.Mag(), z, W(i - t - 1), x, X.Value());
      Z.p := Z.p[i - t - 1 := z];
      i := i - 1;
    }
  }

  predicate Distinct(X: Mpi, Y: Mpi, Z: Mpi, T1: Mpi, T2: Mpi) {
    X != Y && X != Z && X != T1 && X != T2 && Y != Z && Y != T1 && Y != T2 && Z != T1 && Z != T2 && T1 != T2
  }

  lemma StoreDigit(q: int, y: int, z: int, w: int, x: int, x': int)
    requires x' == x - z * (y * w)
    ensures (q + z * w) * y + x' == q * y + x
  {
    MulDist(y, q, z * w);
    MulAssoc(z, w, y);
  }

  // ---------- Normalisation and the leading digit ----------

  /** No spare limb: the top one is nonzero. */
  ghost predicate Tight(X: Mpi)
    reads X
  {
    |X.p| > 0 && W(|X.p| - 1) <= X.Mag()
  }

  lemma SigIsTight(p: seq<Limb>, q: seq<Limb>)
    requires |p| == Sig(q) && Val(p) == Val(q) && Val(q) > 0 && |q| > 0
    ensures W(|p| - 1) <= Val(p)
  {
    ValTrailing(q, Sig(q));
    if Sig(q) > 1 { UsedBounds(q, Sig(q)); }
  }

  method CopyAbs(A: Mpi) returns (X: Mpi)
    requires A.Valid() && A.Mag() > 0
    ensures fresh(X) && X.Valid() && X.s == 1 && X.Mag() == A.Mag() && Tight(X)
    ensures |X.p| <= |A.p|
  {
    X := new Mpi();
    X.Copy(A);
    X.s := 1;
    SigIsTight(X.p, A.p);
  }

  method ShiftTight(X: Mpi, k: nat)
    requires Tight(X)
    modifies X`p
    ensures Tight(X) && X.Mag() == old(X.Mag()) * Pow(2, k)
  {
    MulLe(1, Pow(2, k), X.Mag());
    ShiftL(X, k);
  }

  /** Shifts both so that the top limb of Y has biL - 1 bits. */
  method Normalise(X: Mpi, Y: Mpi) returns (k: nat, ghost bits: nat)
    requires X != Y && Tight(X) && Tight(Y)
    modifies X`p, Y`p
    ensures Tight(X) && Tight(Y) && k < LimbBits(B)
    ensures X.Mag() == old(X.Mag()) * Pow(2, k) && Y.Mag() == old(Y.Mag()) * Pow(2, k)
    ensures IsBitLen(Y.Mag(), bits) && bits % LimbBits(B) == LimbBits(B) - 1
  {
    var l := LimbBits(B);
    var n := BitLen(Y);
    k := n % l;
    if k < l - 1 {
      k := l - 1 - k;
      ShiftTight(X, k);
      ShiftTight(Y, k);
    } else {
      k := 0;
    }
    bits := n + k;
    ShiftedLength(old(Y.Mag()), n, k);
    FillsUp(n, k, l);
  }

  lemma ShiftedLength(v: nat, n: nat, k: nat)
    requires v > 0 && IsBitLen(v, n)
    ensures 0 <= v * Pow(2, k) && IsBitLen(v * Pow(2, k), n + k)
  {
    var m := Pow(2, k);
    PowAdd(2, n - 1, k);
    PowAdd(2, n, k);
    MulLe(Pow(2, n - 1), v, m);
    MulLt(v, Pow(2, n), m);
    MulLe(1, v, m);
  }

  lemma FillsUp(n: nat, k: nat, l: nat)
    requires l > 1 && k == (if n % l < l - 1 then l - 1 - n % l else 0)
    ensures (n + k) % l == l - 1
  {
    DivModFacts(n, l);
    DivModUnique(n + k, l, n / l, l - 1);
  }

  lemma TopNonZero(y: seq<Limb>, t: nat)
    requires t < |y| && W(t) <= Val(y) < W(t + 1)
    ensures y[t] > 0
  {
    ValHighZero(y, t + 1);
    ValSnoc(y, t);
    ValBound(y[..t]);
  }

  lemma TightOrder(x: seq<Limb>, y: seq<Limb>)
    requires |y| > 0 && W(|y| - 1) <= Val(y) <= Val(x)
    ensures |y| <= |x|
  {
    ValBound(x);
    if |x| < |y| { WMono(|x|, |y| - 1); }
  }

  /** The leading digit by repeated subtraction of Y shifted all the way up. */
  method FirstDigit(X: Mpi, Y: Mpi, Z: Mpi, n: nat, t: nat)
    requires X != Y && X != Z && Y != Z && X.Valid() && Y.Valid() && X.s == 1 && Y.s == 1
    requires t <= n && n + 1 == |X.p| && t + 1 == |Y.p| && n - t < |Z.p|
    requires Tight(Y) && Z.Mag() == 0
    modifies X, Y, Z`p
    ensures X.Valid() && Y.Valid() && Y.s == 1 && |X.p| >= |old(X.p)| && |Y.p| > t && |Z.p| == |old(Z.p)|
    ensures Y.Mag() == old(Y.Mag()) && Y.p[t] > 0
    ensures 0 <= X.Value() < Y.Mag() * W(n - t)
    ensures forall k :: 0 <= k < n - t ==> Z.p[k] == 0
    ensures Z.Mag() * Y.Mag() + X.Value() == old(X.Value())
  {
    ghost var y, w := Y.Mag(), W(n - t);
    ValBound(Y.p);
    ValBound(X.p);
    ShiftByLimbs(Y, n - t);
    assert Y.Value() == y * w && Y.Mag() == y * w;
    LeadingCount(X, Y, Z, n, t, y);
    LowerDivisor(Y, n - t, t, y);
  }

  /** Y is shifted back to where it was. */
  method LowerDivisor(Y: Mpi, pos: nat, t: nat, ghost y: int)
    requires Y.Valid() && Y.s == 1 && |Y.p| > t && Y.Mag() == y * W(pos) && W(t) <= y < W(t + 1)
    modifies Y
    ensures Y.Valid() && Y.s == 1 && |Y.p| == |old(Y.p)| && Y.Mag() == y && Y.p[t] > 0
  {
    Pow2Limbs(pos, 0);
    QuotientIs(y * W(pos), W(pos), y, 0);
    ShiftR(Y, LimbBits(B) * pos);
    TopNonZero(Y.p, t);
  }

  method LeadingCount(X: Mpi, Y: Mpi, Z: Mpi, n: nat, t: nat, ghost y: int)
    requires X != Y && X != Z && Y != Z && X.Valid() && Y.Valid() && Y.s == 1 && X.p != [] && Y.p != []
    requires t <= n && n - t < |Z.p| && Z.Mag() == 0
    requires W(t) <= y && Y.Value() == y * W(n - t) && 0 <= X.Value() < W(n + 1)
    modifies X, Z`p
    ensures X.Valid() && |X.p| >= |old(X.p)| && |Z.p| == |old(Z.p)|
    ensures 0 <= X.Value() < Y.Value()
    ensures forall k :: 0 <= k < n - t ==> Z.p[k] == 0
    ensures Z.Mag() * y + X.Value() == old(X.Value())
  {
    ghost var x, w := X.Value(), W(n - t);
    assert W(n) <= y * w by { PowAdd(B, t, n - t); MulLe(W(t), y, w); }
    ValHighZero(Z.p, 0);
    var c := CmpMpi(X, Y);
    while c >= 0
      invariant X.Valid() && |X.p| >= |old(X.p)| && |Z.p| == |old(Z.p)|
      invariant X.Value() >= 0 && c == Sgn(X.Value() - Y.Value())
      invariant forall k :: 0 <= k < n - t ==> Z.p[k] == 0
      invariant Z.Mag() == Z.p[n - t] * w
      invariant Z.Mag() * y + X.Value() == x
      decreases X.Value()
    {
      CountFits(Z.p[n - t], Z.Mag(), y, w, x, X.Value(), n);
      CountStep(Z.p[n - t], Z.Mag(), y, w, X.Value());
      BumpDigit(Z, n - t);
      SubMpi(X, X, Y);
      c := CmpMpi(X, Y);
    }
  }

  method BumpDigit(Z: Mpi, k: nat)
    requires k < |Z.p| && Z.p[k] + 1 < B
    modifies Z`p
    ensures Z.p == old(Z.p)[k := old(Z.p)[k] + 1] && Z.Mag() == old(Z.Mag()) + W(k)
  {
    ValUpdate(Z.p, k, Z.p[k] + 1);
    Z.p := Z.p[k := AddW(Z.p[k], 1)];
  }

  lemma CountStep(d: int, z: int, y: int, w: int, x: int)
    requires z == d * w
    ensures z + w == (d + 1) * w && (z + w) * y + (x - y * w) == z * y + x
  {
    MulDist(w, d, 1);
    MulDist(y, z, w);
  }

  lemma CountFits(d: Limb, z: int, y: int, w: int, x: int, x': int, n: nat)
    requires z == d * w && z * y + x' == x && x < W(n + 1) && W(n) <= y * w <= x'
    ensures d + 1 < B
  {
    MulAssoc(d, w, y);
    MulLe(W(n), y * w, d + 1);
    MulDist(y * w, d, 1);
    MulCancelLt(d + 1, B, W(n));
  }

  // ---------- mbedtls_mpi_div_mpi and mbedtls_mpi_mod_mpi ----------

  /** Division rounding toward zero, and its remainder, which takes the dividend's sign. */
  function TruncDiv(a: int, b: int): int
    requires b != 0
  {
    if (a < 0) == (b < 0) then Abs(a) / Abs(b) else -(Abs(a) / Abs(b))
  }

  function TruncMod(a: int, b: int): int
    requires b != 0
  {
    if a < 0 then -(Abs(a) % Abs(b)) else Abs(a) % Abs(b)
  }

  /** A = Q*B + R with |R| < |B| and R zero or of A's sign. */
  lemma TruncDivMod(a: int, b: int)
    requires b != 0
    ensures a == TruncDiv(a, b) * b + TruncMod(a, b)
    ensures Abs(TruncMod(a, b)) < Abs(b)
    ensures TruncMod(a, b) == 0 || (TruncMod(a, b) < 0 <==> a < 0)
  {
    DivModFacts(Abs(a), Abs(b));
    NegMul(Abs(a) / Abs(b), b);
  }

  /** The division of magnitudes: Z is the quotient, X the remainder still shifted by k. */
  method DivAbs(A: Mpi, D: Mpi) returns (X: Mpi, Z: Mpi, k: nat)
    requires A.Valid() && D.Valid() && 0 < D.Mag() <= A.Mag()
    ensures fresh(X) && fresh(Z) && X != Z && X.Valid() && Z.Valid() && X.p != [] && Z.p != []
    ensures Z.s == 1 && Z.Mag() == A.Mag() / D.Mag() && X.Mag() / Pow(2, k) == A.Mag() % D.Mag()
  {
    X := CopyAbs(A);
    var Y := CopyAbs(D);
    Z := new Mpi();
    Z.Grow(|A.p| + 2);
    Z.Lset(0);
    ghost var bits;
    k, bits := Normalise(X, Y);
    MulLe(D.Mag(), A.Mag(), Pow(2, k));
    TightOrder(X.p, Y.p);
    DigitsFit(A.p, X.p, k);
    DivDigits(X, Y, Z);
    FinishDivision(A.Mag(), D.Mag(), Pow(2, k), Z.Mag(), X.Value());
  }

  /** All digits of X / Y into a zeroed Z, the remainder staying in X. */
  method DivDigits(X: Mpi, Y: Mpi, Z: Mpi)
    requires X != Y && X != Z && Y != Z && X.Valid() && Y.Valid() && X.s == 1 && Y.s == 1
    requires 0 < |Y.p| <= |X.p| < |Z.p| && Tight(Y) && Z.Mag() == 0
    modifies X, Y, Z`p
    ensures X.Valid() && X.p != [] && |Z.p| > 0
    ensures 0 <= X.Value() < old(Y.Mag())
    ensures Z.Mag() * old(Y.Mag()) + X.Value() == old(X.Value())
  {
    var T1 := new Mpi();
    T1.Grow(2);
    var T2 := new Mpi();
    T2.Grow(3);
    var n, t := |X.p| - 1, |Y.p| - 1;
    ValBound(Y.p);
    FirstDigit(X, Y, Z, n, t);
    DivLoop(X, Y, Z, T1, T2, n, t);
  }

  lemma BelowNext(a: int, m: int, w: int)
    requires 0 <= a < w && m <= B
    ensures a * m < B * w
  {
    MulLe(m, B, a);
    MulLt(a, w, B);
  }

  lemma DigitsFit(a: seq<Limb>, x: seq<Limb>, k: nat)
    requires |x| > 0 && W(|x| - 1) <= Val(x) && Val(x) == Val(a) * Pow(2, k) && k < LimbBits(B)
    ensures |x| <= |a| + 1
  {
    assert Pow(2, k) <= B by {
      RadixPow();
      PowMono(2, k, LimbBits(B));
    }
    ValBound(a);
    BelowNext(Val(a), Pow(2, k), W(|a|));
    WSucc(|a|);
    if |x| > |a| + 1 { WMono(|a| + 1, |x| - 1); }
  }

  lemma FinishDivision(a: int, d: int, m: int, q: int, x: int)
    requires d > 0 && m > 0 && q * (d * m) + x == a * m && 0 <= x < d * m
    ensures q == a / d && x / m == a % d
  {
    UndoShift(a, d, m, a * m, q, x);
    DivModUnique(a, d, q, x / m);
  }

  /**
   A = Q*B + R. Either result may be absent. R may be an operand; Q may only be one
   whose sign is then read back unharmed, and A only when no remainder is asked for.
   */
  method DivMpi(Q: Mpi?, R: Mpi?, A: Mpi, D: Mpi) returns (ret: Status)
    requires A.Valid() && D.Valid() && (Q == null || Q != R)
    requires Q == A ==> R == null && A.s == 1
    requires Q == D ==> D.s == 1
    modifies Q, R
    ensures ret == (if old(D.Value()) == 0 then DivisionByZero else Ok)
    ensures ret == Ok && Q != null ==> Q.Valid() && Q.Value() == TruncDiv(old(A.Value()), old(D.Value()))
    ensures ret == Ok && R != null ==> R.Valid() && R.Value() == TruncMod(old(A.Value()), old(D.Value()))
    ensures ret == Ok && R != null && old(A.p) != [] ==> R.p != [] && |R.p| >= |old(R.p)|
    ensures ret != Ok ==>
      (Q != null ==> Q.p == old(Q.p) && Q.s == old(Q.s)) && (R != null ==> R.p == old(R.p) && R.s == old(R.s))
  {
    var c := CmpInt(D, 0);
    if c == 0 { return DivisionByZero; }
    c := CmpAbs(A, D);
    SignedParts(A.s, A.Mag(), D.s, D.Mag());
    if c < 0 {
      ModSmall(A.Mag(), D.Mag());
      if Q != null { Q.Lset(0); }
      if R != null { R.Copy(A); }
      return Ok;
    }
    var X, Z, k := DivAbs(A, D);
    if Q != null { StoreQuotient(Q, Z, A, D); }
    if R != null { StoreRemainder(R, X, k, A.s); }
    return Ok;
  }

  /** What the signs make of the quotient and the remainder of the magnitudes. */
  lemma SignedParts(s: int, m: nat, t: int, n: nat)
    requires (s == 1 || s == -1) && (t == 1 || t == -1) && n > 0
    ensures TruncDiv(if s < 0 then 0 - m else m, if t < 0 then 0 - n else n) == (if s * t < 0 then 0 - m / n else m / n)
    ensures TruncMod(if s < 0 then 0 - m else m, if t < 0 then 0 - n else n) == (if s < 0 then 0 - m % n else m % n)
  {
    if m == 0 { ModSmall(0, n); }
  }

  method StoreQuotient(Q: Mpi, Z: Mpi, A: Mpi, D: Mpi)
    requires Q != Z && Z.Valid() && Z.s == 1 && Z.p != [] && A.Valid() && D.Valid()
    requires (Q == A ==> A.s == 1) && (Q == D ==> D.s == 1)
    modifies Q
    ensures Q.Valid() && Q.Mag() == old(Z.Mag()) && Q.s == old(A.s) * old(D.s)
  {
    Q.Copy(Z);
    Q.s := A.s * D.s;
  }

  method StoreRemainder(R: Mpi, X: Mpi, k: nat, s: int)
    requires R != X && X.Valid() && X.p != [] && (s == 1 || s == -1)
    modifies R, X
    ensures R.Valid() && R.p != [] && |R.p| >= |old(R.p)| && R.Mag() == old(X.Mag()) / Pow(2, k)
    ensures R.s == s || R.Mag() == 0
  {
    ShiftR(X, k);
    X.s := s;
    R.Copy(X);
    var c := CmpInt(R, 0);
    if c == 0 { R.s := 1; }
  }

  /** mbedtls_mpi_mod_mpi: R = A mod D in [0, D); the modulus itself may not be the result. */
  method ModMpi(R: Mpi, A: Mpi, D: Mpi) returns (ret: Status)
    requires A.Valid() && D.Valid() && R != D
    modifies R
    ensures ret == (if D.Value() < 0 then NegativeValue else if D.Value() == 0 then DivisionByZero else Ok)
    ensures ret == Ok ==> R.Valid() && R.Value() == old(A.Value()) % D.Value()
    ensures ret == Ok && old(A.p) != [] ==> R.p != [] && |R.p| >= |old(R.p)|
    ensures ret != Ok ==> R.p == old(R.p) && R.s == old(R.s)
  {
    var c := CmpInt(D, 0);
    if c < 0 { return NegativeValue; }
    ret := DivMpi(null, R, A, D);
    if ret != Ok { return; }
    ghost var a, d := old(A.Value()), D.Value();
    ghost var k := TruncDiv(a, d);
    TruncDivMod(a, d);
    c := CmpInt(R, 0);
    while c < 0
      invariant R.Valid() && (old(A.p) != [] ==> R.p != [] && |R.p| >= |old(R.p)|) && c == Sgn(R.Value() - 0)
      invariant a == k * d + R.Value()
      decreases -R.Value()
    {
      AddMpi(R, R, D);
      MulDist(d, k, -1);
      k := k - 1;
      c := CmpInt(R, 0);
    }
    c := CmpMpi(R, D);
    while c >= 0
      invariant R.Valid() && (old(A.p) != [] ==> R.p != [] && |R.p| >= |old(R.p)|) && c == Sgn(R.Value() - d)
      invariant a == k * d + R.Value() && 0 <= R.Value()
      decreases R.Value()
    {
      SubMpi(R, R, D);
      MulDist(d, k, 1);
      k := k + 1;
      c := CmpMpi(R, D);
    }
    DivModUnique(a, d, k, R.Value());
  }
}
