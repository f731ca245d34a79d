/** mbedtls_mpi_gcd (binary gcd, HAC 14.54) and mbedtls_mpi_inv_mod (HAC 14.61). */
module GcdInv {
  import opened Arith
  import opened NumTheory
  import opened Limbs
  import opened BigNum
  import opened Compare
  import opened AddSub
  import opened Bits
  import opened Shift
  import opened Division
  import opened ExpMod

  // ---------- mbedtls_mpi_gcd ----------

  /** x, y and a, b have the same odd common divisors. */
  ghost predicate SameOdd(x: int, y: int, a: int, b: int) {
    forall d :: d % 2 == 1 ==> ((Divides(d, x) && Divides(d, y)) <==> (Divides(d, a) && Divides(d, b)))
  }

  lemma SameOddShift(x: int, y: int, a: int, b: int, x': int, k: nat)
    requires SameOdd(x, y, a, b) && x == x' * Pow(2, k)
    ensures SameOdd(x', y, a, b)
  {
    forall d | d % 2 == 1
      ensures (Divides(d, x') && Divides(d, y)) <==> (Divides(d, a) && Divides(d, b))
    {
      OddDividesPow2(d, x', k);
    }
  }

  lemma SameOddSwap(x: int, y: int, a: int, b: int)
    requires SameOdd(x, y, a, b)
    ensures SameOdd(y, x, a, b)
  {
  }

  lemma SameOddSub(x: int, y: int, a: int, b: int)
    requires SameOdd(x, y, a, b)
    ensures SameOdd(x - y, y, a, b)
  {
    forall d | d % 2 == 1
      ensures (Divides(d, x - y) && Divides(d, y)) <==> (Divides(d, a) && Divides(d, b))
    {
      if Divides(d, x) && Divides(d, y) { DividesLinear(d, x, y, 1, -1); }
      if Divides(d, x - y) && Divides(d, y) { DividesLinear(d, x - y, y, 1, 1); }
    }
  }

  /** Removes all factors of two; zero stays zero. */
  method MakeOdd(X: Mpi)
    requires X.Valid() && X.s == 1
    modifies X
    ensures X.Valid() && X.s == 1
    ensures old(X.Mag()) == 0 ==> X.Mag() == 0
    ensures old(X.Mag()) > 0 ==> X.Mag() % 2 == 1
    ensures exists k: nat :: old(X.Mag()) == X.Mag() * Pow(2, k)
    ensures X.Mag() <= old(X.Mag())
  {
    var k := Lsb(X);
    ghost var v := X.Mag();
    ShiftR(X, k);
    if v == 0 {
      ModSmall(0, Pow(2, k));
    } else {
      OddPart(v, k);
    }
    assert v == X.Mag() * Pow(2, k);
    MulLe(1, Pow(2, k), X.Mag());
  }

  lemma OddPart(v: nat, k: nat)
    requires IsLsb(v, k)
    ensures v == (v / Pow(2, k)) * Pow(2, k) && (v / Pow(2, k)) % 2 == 1
  {
    var j :| j % 2 == 1 && v == j * Pow(2, k);
    DivModUnique(v, Pow(2, k), j, 0);
  }

  /** Half the difference of two odd numbers replaces the larger one. */
  method SubHalve(X: Mpi, Y: Mpi)
    requires X != Y && X.Valid() && Y.Valid() && X.s == 1 && Y.s == 1
    requires X.Mag() % 2 == 1 && (Y.Mag() % 2 == 1 || Y.Mag() == 0) && Y.Mag() <= X.Mag()
    modifies X
    ensures X.Valid() && X.s == 1 && X.Mag() == (old(X.Mag()) - Y.Mag()) / 2
  {
    var ok := SubAbs(X, X, Y);
    ghost var v := X.Mag();
    assert v / Pow(2, 1) == v / 2;
    ShiftR(X, 1);
  }

  /** The loop: for b > 0 the odd common divisors stay, and TB ends up as the greatest of them. */
  method OddGcd(TA: Mpi, TB: Mpi)
    requires TA != TB && TA.Valid() && TB.Valid() && TA.s == 1 && TB.s == 1
    modifies TA, TB
    ensures TB.Valid() && TB.s == 1
    ensures old(TB.Mag()) == 0 ==> TB.Mag() == 0
    ensures old(TA.Mag()) == 0 ==> TB.Mag() == old(TB.Mag())
    ensures old(TA.Mag()) > 0 && old(TB.Mag()) > 0 ==>
              TB.Mag() % 2 == 1 && SameOdd(0, TB.Mag(), old(TA.Mag()), old(TB.Mag()))
  {
    ghost var a, b := TA.Mag(), TB.Mag();
    var first := true;
    var c := CmpInt(TA, 0);
    while c != 0
      invariant TA.Valid() && TB.Valid() && TA.s == 1 && TB.s == 1
      invariant c == Sgn(TA.Mag() - 0)
      invariant (b == 0 <==> TB.Mag() == 0) && (b > 0 ==> SameOdd(TA.Mag(), TB.Mag(), a, b))
      invariant a == 0 ==> first
      invariant first ==> TB.Mag() == b && TA.Mag() == a
      invariant !first && TA.Mag() == 0 && b > 0 ==> TB.Mag() % 2 == 1
      decreases TA.Mag() + TB.Mag()
    {
      first := false;
      GcdRound(TA, TB, a, b);
      c := CmpInt(TA, 0);
    }
  }

  method GcdRound(TA: Mpi, TB: Mpi, ghost a: nat, ghost b: nat)
    requires TA != TB && TA.Valid() && TB.Valid() && TA.s == 1 && TB.s == 1
    requires TA.Mag() > 0 && (TB.Mag() > 0 ==> SameOdd(TA.Mag(), TB.Mag(), a, b))
    modifies TA, TB
    ensures TA.Valid() && TB.Valid() && TA.s == 1 && TB.s == 1
    ensures old(TB.Mag()) == 0 <==> TB.Mag() == 0
    ensures TB.Mag() > 0 ==> SameOdd(TA.Mag(), TB.Mag(), a, b)
    ensures TA.Mag() == 0 && TB.Mag() > 0 ==> TB.Mag() % 2 == 1
    ensures TA.Mag() + TB.Mag() < old(TA.Mag() + TB.Mag())
  {
    RemoveTwos(TA, TB, a, b);
    ghost var x, y := TA.Mag(), TB.Mag();
    var c := CmpMpi(TA, TB);
    if c >= 0 {
      SubHalve(TA, TB);
      if y > 0 { RoundKeeps(x, y, a, b, TA.Mag()); }
    } else {
      SubHalve(TB, TA);
      SameOddSwap(x, y, a, b);
      RoundKeeps(y, x, a, b, TB.Mag());
      SameOddSwap(TB.Mag(), x, a, b);
    }
  }

  method RemoveTwos(TA: Mpi, TB: Mpi, ghost a: nat, ghost b: nat)
    requires TA != TB && TA.Valid() && TB.Valid() && TA.s == 1 && TB.s == 1
    requires TA.Mag() > 0 && (TB.Mag() > 0 ==> SameOdd(TA.Mag(), TB.Mag(), a, b))
    modifies TA, TB
    ensures TA.Valid() && TB.Valid() && TA.s == 1 && TB.s == 1
    ensures TA.Mag() % 2 == 1 && (if old(TB.Mag()) == 0 then TB.Mag() == 0 else TB.Mag() % 2 == 1)
    ensures TB.Mag() > 0 ==> SameOdd(TA.Mag(), TB.Mag(), a, b)
    ensures TA.Mag() <= old(TA.Mag()) && TB.Mag() <= old(TB.Mag())
  {
    ghost var x0, y0 := TA.Mag(), TB.Mag();
    MakeOdd(TA);
    MakeOdd(TB);
    if y0 > 0 { TwosRemoved(x0, y0, TA.Mag(), TB.Mag(), a, b); }
  }

  lemma TwosRemoved(x0: nat, y0: nat, x: nat, y: nat, a: int, b: int)
    requires SameOdd(x0, y0, a, b)
    requires exists k: nat :: x0 == x * Pow(2, k)
    requires exists k: nat :: y0 == y * Pow(2, k)
    ensures SameOdd(x, y, a, b)
  {
    var j: nat :| x0 == x * Pow(2, j);
    SameOddShift(x0, y0, a, b, x, j);
    var k: nat :| y0 == y * Pow(2, k);
    SameOddSwap(x, y0, a, b);
    SameOddShift(y0, x, a, b, y, k);
    SameOddSwap(y, x, a, b);
  }

  lemma RoundKeeps(x: nat, y: nat, a: int, b: int, r: nat)
    requires SameOdd(x, y, a, b) && y <= x && r == (x - y) / 2
    requires x % 2 == 1 && y % 2 == 1
    ensures SameOdd(r, y, a, b)
  {
    SameOddSub(x, y, a, b);
    assert x - y == r * Pow(2, 1);
    SameOddShift(x - y, y, a, b, r, 1);
  }

  /** Without common factors of two, the greatest odd common divisor is the gcd. */
  lemma OddGcdIsGcd(g: nat, a: nat, b: nat)
    requires g % 2 == 1 && SameOdd(0, g, a, b) && (a % 2 == 1 || b % 2 == 1)
    ensures g == Gcd(a, b)
  {
    assert Divides(g, 0) && Divides(g, g) by { assert 0 == 0 * g && g == 1 * g; }
    var h := Gcd(a, b);
    GcdDivides(a, b);
    assert h % 2 == 1 by {
      if h % 2 == 0 { EvenDivides(h, a); EvenDivides(h, b); }
    }
    GcdUnique(a, b, g);
  }

  lemma EvenDivides(h: int, a: int)
    requires h % 2 == 0 && Divides(h, a)
    ensures a % 2 == 0
  {
    var k :| a == k * h;
    var j := h / 2;
    MulAssoc(k, 2, j);
    MulAssoc(2, k, j);
    assert a == 2 * (k * j);
  }

  lemma ExactShift(v: nat, n: nat, k: nat)
    requires IsLsb(v, n) && k <= n
    ensures v == (v / Pow(2, k)) * Pow(2, k)
    ensures k == n ==> (v / Pow(2, k)) % 2 == 1
  {
    var j :| j % 2 == 1 && v == j * Pow(2, n);
    PowAdd(2, n - k, k);
    MulAssoc(j, Pow(2, n - k), Pow(2, k));
    DivModUnique(v, Pow(2, k), j * Pow(2, n - k), 0);
    assert Pow(2, 0) == 1;
  }

  /** The greatest common divisor, except that the one with 0 is answered by 0. */
  method GcdMpi(G: Mpi, A: Mpi, Y: Mpi)
    requires A.Valid() && Y.Valid()
    modifies G
    ensures G.Valid()
    ensures G.Value() == (if old(Y.Mag()) == 0 then 0 else Gcd(old(A.Mag()), old(Y.Mag())))
    ensures G.Value() == Gcd(old(A.Mag()), old(Y.Mag())) <==> old(Y.Mag()) != 0 || old(A.Mag()) == 0
  {
    var TA := new Mpi();
    TA.Copy(A);
    var TB := new Mpi();
    TB.Copy(Y);
    ghost var a, b := TA.Mag(), TB.Mag();
    var lz := Lsb(TA);
    var lzt := Lsb(TB);
    ghost var la := lz;
    if lzt < lz { lz := lzt; }
    ShiftR(TA, lz);
    ShiftR(TB, lz);
    TA.s, TB.s := 1, 1;
    ghost var a0, b0 := TA.Mag(), TB.Mag();
    ShiftedPair(a, b, la, lzt, lz);
    OddGcd(TA, TB);
    GcdAnswer(a, b, a0, b0, TB.Mag(), lz);
    ShiftL(TB, lz);
    G.Copy(TB);
  }

  lemma ShiftedPair(a: nat, b: nat, la: nat, lb: nat, lz: nat)
    requires if a == 0 then la == 0 else IsLsb(a, la)
    requires if b == 0 then lb == 0 else IsLsb(b, lb)
    requires lz == (if lb < la then lb else la)
    ensures a == (a / Pow(2, lz)) * Pow(2, lz) && b == (b / Pow(2, lz)) * Pow(2, lz)
    ensures a > 0 && b > 0 ==> (a / Pow(2, lz)) % 2 == 1 || (b / Pow(2, lz)) % 2 == 1
    ensures a == 0 || b == 0 ==> lz == 0
  {
    if a == 0 { ModSmall(0, Pow(2, lz)); } else { ExactShift(a, la, lz); }
    if b == 0 { ModSmall(0, Pow(2, lz)); } else { ExactShift(b, lb, lz); }
  }

  lemma GcdAnswer(a: nat, b: nat, a0: nat, b0: nat, g: nat, lz: nat)
    requires a == a0 * Pow(2, lz) && b == b0 * Pow(2, lz)
    requires a > 0 && b > 0 ==> a0 % 2 == 1 || b0 % 2 == 1
    requires a == 0 || b == 0 ==> lz == 0
    requires b0 == 0 ==> g == 0
    requires a0 == 0 ==> g == b0
    requires a0 > 0 && b0 > 0 ==> g % 2 == 1 && SameOdd(0, g, a0, b0)
    ensures g * Pow(2, lz) == (if b == 0 then 0 else Gcd(a, b))
  {
    if a > 0 && b > 0 {
      OddGcdIsGcd(g, a0, b0);
      GcdScale(a0, b0, Pow(2, lz));
    } else if b > 0 {
      ModSmall(0, b);
    }
  }

  // ---------- mbedtls_mpi_inv_mod ----------

  /** T = U * a + V * n, the invariant kept for both triples. */
  ghost predicate Combo(T: Mpi, U: Mpi, V: Mpi, a: int, n: int)
    reads T, U, V
  {
    && T.Valid() && U.Valid() && V.Valid() && T.p != [] && U.p != [] && V.p != []
    && T.Value() == U.Value() * a + V.Value() * n
  }

  method HalveMpi(X: Mpi)
    requires X.Valid() && X.Mag() % 2 == 0 && X.p != []
    modifies X
    ensures X.Valid() && X.p != [] && 2 * X.Value() == old(X.Value()) && 2 * X.Mag() == old(X.Mag())
  {
    ghost var v := X.Mag();
    assert v / Pow(2, 1) == v / 2;
    ShiftR(X, 1);
  }

  /** An even combination of coefficients that are not both even becomes one of even coefficients. */
  lemma EvenCombo(t: int, u: int, v: int, a: int, n: int)
    requires t == u * a + v * n && t % 2 == 0 && (a % 2 == 1 || n % 2 == 1)
    requires u % 2 != 0 || v % 2 != 0
    ensures (u + n) % 2 == 0 && (v - a) % 2 == 0
    ensures (u + n) * a + (v - a) * n == t
  {
    ParityProduct(u, a);
    ParityProduct(v, n);
    EvenCases(u * a, v * n, u, v, a, n);
    MovedCombo(u, v, a, n);
  }

  lemma EvenCases(x: int, y: int, u: int, v: int, a: int, n: int)
    requires (x + y) % 2 == 0 && (a % 2 == 1 || n % 2 == 1) && (u % 2 != 0 || v % 2 != 0)
    requires x % 2 == (if u % 2 == 0 || a % 2 == 0 then 0 else 1)
    requires y % 2 == (if v % 2 == 0 || n % 2 == 0 then 0 else 1)
    ensures (u + n) % 2 == 0 && (v - a) % 2 == 0
  {
  }

  lemma MovedCombo(u: int, v: int, a: int, n: int)
    ensures (u + n) * a + (v - a) * n == u * a + v * n
  {
    MulDist(a, u, n);
    MulDist(n, v, 0 - a);
    NegMul(a, n);
  }

  lemma ParityProduct(x: int, y: int)
    ensures (x * y) % 2 == (if x % 2 == 0 || y % 2 == 0 then 0 else 1)
  {
    CongMod(x, 2);
    CongMod(y, 2);
    CongMul(x, x % 2, y, y % 2, 2);
  }

  lemma HalfCombo(t: int, u: int, v: int, a: int, n: int)
    requires 2 * t == (2 * u) * a + (2 * v) * n
    ensures t == u * a + v * n
  {
    MulAssoc(2, u, a);
    MulAssoc(2, v, n);
  }

  lemma BothEven(X: Mpi)
    requires X.p != []
    ensures X.p[0] % 2 == X.Mag() % 2 == X.Value() % 2
  {
    LowLimbParity(X.p);
  }

  /**
   When a coefficient is odd, the operands are added and subtracted crosswise: then both are even,
   and the sum is the same.
   */
  method MakeEven(U: Mpi, V: Mpi, TA: Mpi, TB: Mpi, ghost t: int)
    requires U != V && TA != U && TA != V && TB != U && TB != V
    requires U.Valid() && V.Valid() && U.p != [] && V.p != [] && TA.Valid() && TB.Valid() && TA.p != [] && TB.p != []
    requires TA.Value() % 2 == 1 || TB.Value() % 2 == 1
    requires t == U.Value() * TA.Value() + V.Value() * TB.Value() && t % 2 == 0
    modifies U, V
    ensures U.Valid() && V.Valid() && U.p != [] && V.p != [] && U.Mag() % 2 == 0 && V.Mag() % 2 == 0
    ensures t == U.Value() * TA.Value() + V.Value() * TB.Value()
  {
    BothEven(U);
    BothEven(V);
    if U.p[0] % 2 != 0 || V.p[0] % 2 != 0 {
      EvenCombo(t, U.Value(), V.Value(), TA.Value(), TB.Value());
      AddMpi(U, U, TB);
      SubMpi(V, V, TA);
      BothEven(U);
      BothEven(V);
    }
  }

  /** One halving of a triple: exact in all three numbers. */
  method HalveTriple(T: Mpi, U: Mpi, V: Mpi, TA: Mpi, TB: Mpi)
    requires T != U && T != V && U != V && TA != T && TA != U && TA != V && TB != T && TB != U && TB != V
    requires TA.Valid() && TB.Valid() && TA.p != [] && TB.p != []
    requires TA.Value() % 2 == 1 || TB.Value() % 2 == 1
    requires Combo(T, U, V, TA.Value(), TB.Value()) && T.Mag() % 2 == 0
    modifies T, U, V
    ensures Combo(T, U, V, TA.Value(), TB.Value())
    ensures 2 * T.Value() == old(T.Value()) && 2 * T.Mag() == old(T.Mag())
  {
    ghost var a, n, t := TA.Value(), TB.Value(), T.Value();
    BothEven(T);
    HalveMpi(T);
    MakeEven(U, V, TA, TB, t);
    HalveMpi(U);
    HalveMpi(V);
    HalfCombo(T.Value(), U.Value(), V.Value(), a, n);
  }

  /** Halve as long as the number is even. */
  method OddTriple(T: Mpi, U: Mpi, V: Mpi, TA: Mpi, TB: Mpi)
    requires T != U && T != V && U != V && TA != T && TA != U && TA != V && TB != T && TB != U && TB != V
    requires TA.Valid() && TB.Valid() && TA.p != [] && TB.p != []
    requires TA.Value() % 2 == 1 || TB.Value() % 2 == 1
    requires Combo(T, U, V, TA.Value(), TB.Value()) && T.Value() > 0
    modifies T, U, V
    ensures Combo(T, U, V, TA.Value(), TB.Value())
    ensures 0 < T.Value() <= old(T.Value()) && T.Value() % 2 == 1
    ensures Divides(T.Value(), old(T.Value()))
  {
    ghost var t := T.Value();
    assert t == 1 * t;
    BothEven(T);
    while T.p[0] % 2 == 0
      invariant Combo(T, U, V, TA.Value(), TB.Value())
      invariant 0 < T.Value() <= t && Divides(T.Value(), t)
      decreases T.Value()
    {
      BothEven(T);
      ghost var x := T.Value();
      HalveTriple(T, U, V, TA, TB);
      DividesHalf(T.Value(), x, t);
      BothEven(T);
    }
    BothEven(T);
  }

  lemma DividesHalf(h: int, x: int, t: int)
    requires x == 2 * h && Divides(x, t)
    ensures Divides(h, t)
  {
    assert Divides(h, x);
    DividesTrans(h, x, t);
  }

  ghost predicate Coprime(x: int, y: int) {
    forall d :: d > 0 && Divides(d, x) && Divides(d, y) ==> d == 1
  }

  lemma CoprimeDivisor(x: int, y: int, z: int)
    requires Coprime(x, y) && Divides(z, x)
    ensures Coprime(z, y) && Coprime(y, z)
  {
    forall d | d > 0 && Divides(d, z) && Divides(d, y)
      ensures d == 1
    {
      DividesTrans(d, z, x);
    }
  }

  lemma CoprimeSub(x: int, y: int)
    requires Coprime(x, y)
    ensures Coprime(x - y, y) && Coprime(y, x - y)
  {
    forall d | d > 0 && Divides(d, x - y) && Divides(d, y)
      ensures d == 1
    {
      DividesLinear(d, x - y, y, 1, 1);
    }
  }

  lemma ComboSub(t: int, u: int, v: int, t': int, u': int, v': int, a: int, n: int)
    requires t == u * a + v * n && t' == u' * a + v' * n
    ensures t - t' == (u - u') * a + (v - v') * n
  {
    MulDist(a, u, 0 - u');
    MulDist(n, v, 0 - v');
    NegMul(u', a);
    NegMul(v', n);
  }

  predicate Apart(T: Mpi, U: Mpi, V: Mpi, T': Mpi, U': Mpi, V': Mpi) {
    && T != U && T != V && U != V && T' != U' && T' != V' && U' != V'
    && T != T' && T != U' && T != V' && U != T' && U != U' && U != V' && V != T' && V != U' && V != V'
  }

  predicate OffSide(X: Mpi, T: Mpi, U: Mpi, V: Mpi) {
    X != T && X != U && X != V
  }

  /** One triple minus the other. */
  method SubTriple(T: Mpi, U: Mpi, V: Mpi, T': Mpi, U': Mpi, V': Mpi, ghost a: int, ghost n: int)
    requires Apart(T, U, V, T', U', V') && Combo(T, U, V, a, n) && Combo(T', U', V', a, n)
    modifies T, U, V
    ensures Combo(T, U, V, a, n) && T.Value() == old(T.Value()) - T'.Value()
  {
    ComboSub(T.Value(), U.Value(), V.Value(), T'.Value(), U'.Value(), V'.Value(), a, n);
    SubMpi(T, T, T');
    SubMpi(U, U, U');
    SubMpi(V, V, V');
  }

  /** The do loop: the triples' heads shrink to 0 and to the gcd, which is 1. */
  method InvLoop(TU: Mpi, U1: Mpi, U2: Mpi, TV: Mpi, V1: Mpi, V2: Mpi, TA: Mpi, TB: Mpi)
    requires Apart(TU, U1, U2, TV, V1, V2)
    requires OffSide(TA, TU, U1, U2) && OffSide(TA, TV, V1, V2) && OffSide(TB, TU, U1, U2) && OffSide(TB, TV, V1, V2)
    requires TA.Valid() && TB.Valid() && TA.p != [] && TB.p != []
    requires TA.Value() % 2 == 1 || TB.Value() % 2 == 1
    requires Combo(TU, U1, U2, TA.Value(), TB.Value()) && Combo(TV, V1, V2, TA.Value(), TB.Value())
    requires TU.Value() > 0 && TV.Value() > 0 && Coprime(TU.Value(), TV.Value())
    modifies TU, U1, U2, TV, V1, V2
    ensures Combo(TV, V1, V2, TA.Value(), TB.Value()) && TV.Value() == 1
  {
    var c := 1;
    while c != 0
      invariant Combo(TU, U1, U2, TA.Value(), TB.Value()) && Combo(TV, V1, V2, TA.Value(), TB.Value())
      invariant TU.Value() >= 0 && TV.Value() > 0 && Coprime(TU.Value(), TV.Value())
      invariant c == Sgn(TU.Value() - 0)
      decreases TU.Value() + TV.Value()
    {
      InvRound(TU, U1, U2, TV, V1, V2, TA, TB);
      c := CmpInt(TU, 0);
    }

    ghost var g := TV.Value();
    assert Divides(g, 0) && Divides(g, g) by { assert 0 == 0 * g && g == 1 * g; }
  }

  method InvRound(TU: Mpi, U1: Mpi, U2: Mpi, TV: Mpi, V1: Mpi, V2: Mpi, TA: Mpi, TB: Mpi)
    requires Apart(TU, U1, U2, TV, V1, V2)
    requires OffSide(TA, TU, U1, U2) && OffSide(TA, TV, V1, V2) && OffSide(TB, TU, U1, U2) && OffSide(TB, TV, V1, V2)
    requires TA.Valid() && TB.Valid() && TA.p != [] && TB.p != []
    requires TA.Value() % 2 == 1 || TB.Value() % 2 == 1
    requires Combo(TU, U1, U2, TA.Value(), TB.Value()) && Combo(TV, V1, V2, TA.Value(), TB.Value())
    requires TU.Value() > 0 && TV.Value() > 0 && Coprime(TU.Value(), TV.Value())
    modifies TU, U1, U2, TV, V1, V2
    ensures Combo(TU, U1, U2, TA.Value(), TB.Value()) && Combo(TV, V1, V2, TA.Value(), TB.Value())
    ensures TU.Value() >= 0 && TV.Value() > 0 && Coprime(TU.Value(), TV.Value())
    ensures TU.Value() + TV.Value() < old(TU.Value() + TV.Value())
  {
    ghost var a, n, u, v := TA.Value(), TB.Value(), TU.Value(), TV.Value();
    OddTriple(TU, U1, U2, TA, TB);
    CoprimeDivisor(u, v, TU.Value());
    OddTriple(TV, V1, V2, TA, TB);
    CoprimeDivisor(v, TU.Value(), TV.Value());
    var c := CmpMpi(TU, TV);
    if c >= 0 {
      CoprimeSub(TU.Value(), TV.Value());
      SubTriple(TU, U1, U2, TV, V1, V2, a, n);
    } else {
      CoprimeSub(TV.Value(), TU.Value());
      SubTriple(TV, V1, V2, TU, U1, U2, a, n);
    }
  }

  /** The inverse of A modulo N, which exists exactly for a coprime A and N > 1. */
  method InvMod(X: Mpi, A: Mpi, N: Mpi) returns (ret: Status)
    requires A.Valid() && N.Valid()
    modifies X
    ensures ret ==
      (if old(N.Value()) <= 1 then BadInput else if Gcd(old(A.Mag()), old(N.Mag())) != 1 then NotAcceptable else Ok)
    ensures ret == Ok ==> X.Valid() && X.p != [] && 0 <= X.Value() < old(N.Value())
    ensures ret == Ok ==> (X.Value() * old(A.Value())) % old(N.Value()) == 1
    ensures ret != Ok ==> X.p == old(X.p) && X.s == old(X.s)
  {
    var c := CmpInt(N, 1);
    if c <= 0 { return BadInput; }
    var G := new Mpi();
    GcdMpi(G, A, N);
    c := CmpInt(G, 1);
    if c != 0 { return NotAcceptable; }
    CoprimeHasLimbs(A.p, N.Mag());
    InverseInto(X, A, N);
    return Ok;
  }

  lemma CoprimeHasLimbs(p: seq<Limb>, n: nat)
    requires n > 1 && Gcd(Val(p), n) == 1
    ensures p != []
  {
    if p == [] { assert Gcd(0, n) == n; }
  }

  method InverseInto(X: Mpi, A: Mpi, N: Mpi)
    requires A.Valid() && N.Valid() && A.p != [] && N.Value() > 1 && Gcd(A.Mag(), N.Mag()) == 1
    modifies X
    ensures X.Valid() && X.p != [] && 0 <= X.Value() < old(N.Value()) &&
      (X.Value() * old(A.Value())) % old(N.Value()) == 1
  {
    var V1 := Inverse(A, N);
    ReduceInto(V1, N, A.Value());
    X.Copy(V1);
    ModSmall(1, old(N.Value()));
  }

  lemma CoprimeResidue(a: int, n: int)
    requires n > 1 && Gcd(Abs(a), n) == 1
    ensures Coprime(a % n, n) && a % n > 0 && (a % n % 2 == 1 || n % 2 == 1)
  {
    var r := a % n;
    forall d | d > 0 && Divides(d, r) && Divides(d, n)
      ensures d == 1
    {
      CommonDivisorIsOne(a, n, d);
    }
    DivModFacts(a, n);
    if r == 0 {
      assert Divides(n, r) && Divides(n, n) by { assert 0 == 0 * n && n == 1 * n; }
    }
    if r % 2 == 0 && n % 2 == 0 {
      assert Divides(2, r) && Divides(2, n) by { assert r == (r / 2) * 2 && n == (n / 2) * 2; }
    }
  }

  lemma CommonDivisorIsOne(a: int, n: int, d: int)
    requires n > 1 && Gcd(Abs(a), n) == 1 && d > 0 && Divides(d, a % n) && Divides(d, n)
    ensures d == 1
  {
    DivModFacts(a, n);
    DividesLinear(d, n, a % n, a / n, 1);
    assert Divides(d, a);
    DividesLinear(d, a, a, if a < 0 then -1 else 1, 0);
    assert Divides(d, Abs(a));
    GcdGreatest(Abs(a), n, d);
    DividesLe(d, 1);
  }

  method NewValue(z: int) returns (X: Mpi)
    requires 0 - B < 2 * z < B
    ensures fresh(X) && X.Valid() && X.p != [] && X.Value() == z
  {
    X := new Mpi();
    X.Lset(z);
  }

  method NewCopy(Y: Mpi) returns (X: Mpi)
    requires Y.Valid() && Y.p != []
    ensures fresh(X) && X.Valid() && X.p != [] && X.Value() == Y.Value()
  {
    X := new Mpi();
    X.Copy(Y);
  }

  /** V1 with V1 * A = 1 mod N. */
  method Inverse(A: Mpi, N: Mpi) returns (V1: Mpi)
    requires A.Valid() && N.Valid() && A.p != [] && N.Value() > 1 && Gcd(A.Mag(), N.Mag()) == 1
    ensures fresh(V1) && V1.Valid() && V1.p != [] && Cong(V1.Value() * A.Value(), 1, N.Value())
  {
    ghost var a, n := A.Value() % N.Value(), N.Value();
    CoprimeResidue(A.Value(), n);
    var TA := new Mpi();
    var ret := ModMpi(TA, A, N);
    ghost var v;
    V1, v := BezoutOf(TA, N);
    InverseFromCombo(V1.Value(), v, a, A.Value(), n);
  }

  method NewTriple(Y: Mpi, u: int, v: int, ghost a: int, ghost n: int) returns (T: Mpi, U: Mpi, V: Mpi)
    requires Y.Valid() && Y.p != [] && 0 <= u <= 1 && 0 <= v <= 1 && Y.Value() == u * a + v * n
    ensures fresh(T) && fresh(U) && fresh(V) && T != U && T != V && U != V
    ensures Combo(T, U, V, a, n) && T.Value() == Y.Value()
  {
    T := NewCopy(Y);
    U := NewValue(u);
    V := NewValue(v);
  }

  /** The triples (TA, 1, 0) and (N, 0, 1), and the loop on them. */
  method BezoutOf(TA: Mpi, N: Mpi) returns (V1: Mpi, ghost v: int)
    requires TA.Valid() && N.Valid() && TA.p != [] && N.p != [] && TA.Value() > 0 && N.Value() > 0
    requires Coprime(TA.Value(), N.Value()) && (TA.Value() % 2 == 1 || N.Value() % 2 == 1)
    ensures fresh(V1) && V1.Valid() && V1.p != [] && 1 == V1.Value() * TA.Value() + v * N.Value()
  {
    var TB := NewCopy(N);
    var TU, U1, U2 := NewTriple(TA, 1, 0, TA.Value(), N.Value());
    var TV, V2;
    TV, V1, V2 := NewTriple(N, 0, 1, TA.Value(), N.Value());
    InvLoop(TU, U1, U2, TV, V1, V2, TA, TB);
    v := V2.Value();
  }

  lemma InverseFromCombo(u: int, v: int, r: int, a: int, n: int)
    requires n > 0 && r == a % n && 1 == u * r + v * n
    ensures Cong(u * a, 1, n)
  {
    CongMod(a, n);
    CongMul(u, u, r, a, n);
    CongIntro(1, u * r, n, v);
  }

  /** The closing loops: V1 into [0, N). */
  method ReduceInto(V: Mpi, N: Mpi, ghost a: int)
    requires V != N && V.Valid() && N.Valid() && V.p != [] && N.p != [] && N.Value() > 0
    requires Cong(V.Value() * a, 1, N.Value())
    modifies V
    ensures V.Valid() && V.p != [] && 0 <= V.Value() < N.Value() && Cong(V.Value() * a, 1, N.Value())
  {
    ghost var n := N.Value();
    var c := CmpInt(V, 0);
    while c < 0
      invariant V.Valid() && V.p != [] && c == Sgn(V.Value() - 0) && Cong(V.Value() * a, 1, n)
      decreases -V.Value()
    {
      CongShift(V.Value(), n, a, 1);
      AddMpi(V, V, N);
      c := CmpInt(V, 0);
    }
    c := CmpMpi(V, N);
    while c >= 0
      invariant V.Valid() && V.p != [] && c == Sgn(V.Value() - n) && 0 <= V.Value() && Cong(V.Value() * a, 1, n)
      decreases V.Value()
    {
      CongShift(V.Value(), n, a, -1);
      SubMpi(V, V, N);
      c := CmpMpi(V, N);
    }
  }

  lemma CongShift(v: int, n: int, a: int, k: int)
    requires n > 0 && Cong(v * a, 1, n)
    ensures Cong((v + k * n) * a, 1, n)
  {
    MulDist(a, v, k * n);
    MulAssoc(k, n, a);
    MulAssoc(k, a, n);
    CongIntro((v + k * n) * a, v * a, n, k * a);
  }
}
