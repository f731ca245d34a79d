/** Primes: Euclid's lemma, Fermat's little theorem and square roots of one. */
module Primes {
  import opened Arith
  import opened NumTheory

  ghost predicate Prime(p: int) {
    p > 1 && forall d :: 1 < d < p ==> !Divides(d, p)
  }

  lemma PrimeCoprime(p: int, a: nat)
    requires Prime(p) && !Divides(p, a)
    ensures Gcd(a, p) == 1
  {
    var g := Gcd(a, p);
    GcdDivides(a, p);
    DividesLe(g, p);
    if g == 0 {
      var k :| p == k * 0;
    }
  }

  /** A prime that divides a product divides a factor. */
  lemma EuclidLemma(p: int, a: nat, b: int)
    requires Prime(p) && Divides(p, a * b) && !Divides(p, a)
    ensures Divides(p, b)
  {
    PrimeCoprime(p, a);
    var x, y := Bezout(a, p);
    assert Divides(p, p) by { assert p == 1 * p; }
    DividesLinear(p, a * b, p, x, y * b);
    calc {
      x * (a * b) + (y * b) * p;
      { MulAssoc(x, a, b); MulAssoc(y, b, p); MulAssoc(y, p, b); }
      (x * a) * b + (y * p) * b;
      { MulDist(b, x * a, y * p); }
      1 * b;
    }
  }

  // ---------- Binomial coefficients ----------

  function Choose(n: nat, k: nat): nat {
    if k == 0 then 1 else if n == 0 then 0 else Choose(n - 1, k - 1) + Choose(n - 1, k)
  }

  lemma {:induction false} ChooseAbove(n: nat, k: nat)
    requires k > n
    ensures Choose(n, k) == 0
  {
    if n > 0 {
      ChooseAbove(n - 1, k - 1);
      ChooseAbove(n - 1, k);
    }
  }

  lemma {:induction false} ChooseAll(n: nat)
    ensures Choose(n, n) == 1
  {
    if n > 0 {
      ChooseAll(n - 1);
      ChooseAbove(n - 1, n);
    }
  }

  /** k * C(n, k) = n * C(n-1, k-1). */
  lemma {:induction false} Absorption(n: nat, k: nat)
    requires n > 0 && k > 0
    ensures k * Choose(n, k) == n * Choose(n - 1, k - 1)
  {
    if n == 1 {
      if k > 1 { ChooseAbove(0, k); ChooseAbove(0, k - 1); }
    } else if k == 1 {
      Absorption(n - 1, 1);
      assert Choose(n - 1, 0) == 1;
    } else {
      var a, b := Choose(n - 2, k - 2), Choose(n - 2, k - 1);
      Absorption(n - 1, k - 1);
      Absorption(n - 1, k);
      var x, y := Choose(n - 1, k - 1), Choose(n - 1, k);
      calc {
        k * Choose(n, k);
        { MulDist(k, x, y); }
        k * x + k * y;
        { MulDist(x, k - 1, 1); }
        (k - 1) * x + x + k * y;
        (n - 1) * a + x + (n - 1) * b;
        { MulDist(n - 1, a, b); MulDist(x, n - 1, 1); }
        n * x;
      }
    }
  }

  /** A prime divides its inner binomial coefficients. */
  lemma PrimeChoose(p: int, k: nat)
    requires Prime(p) && 0 < k < p
    ensures Divides(p, Choose(p, k))
  {
    Absorption(p, k);
    assert Divides(p, k * Choose(p, k)) by {
      assert k * Choose(p, k) == Choose(p - 1, k - 1) * p;
    }
    if Divides(p, k) { DividesLe(p, k); }
    EuclidLemma(p, k, Choose(p, k));
  }

  /** The first m+1 terms of (a + 1)^n. */
  function BinSum(a: int, n: nat, m: nat): int {
    if m == 0 then 1 else BinSum(a, n, m - 1) + Choose(n, m) * Pow(a, m)
  }

  lemma {:induction false} BinPascal(a: int, n: nat, m: nat)
    requires n > 0 && m > 0
    ensures BinSum(a, n, m) == BinSum(a, n - 1, m) + a * BinSum(a, n - 1, m - 1)
  {
    var x, y := Choose(n - 1, m - 1), Choose(n - 1, m);
    MulDist(Pow(a, m), x, y);
    MulAssoc(x, a, Pow(a, m - 1));
    MulAssoc(a, x, Pow(a, m - 1));
    if m > 1 {
      BinPascal(a, n, m - 1);
      MulDist(a, BinSum(a, n - 1, m - 2), x * Pow(a, m - 1));
    }
  }

  lemma {:induction false} Binomial(a: int, n: nat)
    ensures BinSum(a, n, n) == Pow(a + 1, n)
  {
    if n > 0 {
      BinPascal(a, n, n);
      ChooseAbove(n - 1, n);
      Binomial(a, n - 1);
      MulDist(Pow(a + 1, n - 1), a, 1);
    }
  }

  /** Modulo a prime only the outer terms are left. */
  lemma {:induction false} BinSumPrime(a: int, p: int, m: nat)
    requires Prime(p) && m < p
    ensures Cong(BinSum(a, p, m), 1, p)
  {
    if m > 0 {
      BinSumPrime(a, p, m - 1);
      PrimeChoose(p, m);
      var k :| Choose(p, m) == k * p;
      MulAssoc(k, p, Pow(a, m));
      MulAssoc(k, Pow(a, m), p);
      CongIntro(BinSum(a, p, m), BinSum(a, p, m - 1), p, k * Pow(a, m));
    }
  }

  // ---------- Fermat ----------

  lemma {:induction false} FermatPower(a: nat, p: int)
    requires Prime(p)
    ensures Cong(Pow(a, p), a, p)
  {
    if a == 0 {
      assert Pow(0, p) == 0 * Pow(0, p - 1);
    } else {
      var b := a - 1;
      FermatPower(b, p);
      Binomial(b, p);
      BinSumPrime(b, p, p - 1);
      ChooseAll(p);
      CongAdd(BinSum(b, p, p - 1), 1, Pow(b, p), b, p);
    }
  }

  lemma DividesCong(p: int, a: int, b: int)
    requires p > 0
    ensures Divides(p, a - b) <==> Cong(a, b, p)
  {
    if Divides(p, a - b) {
      var k :| a - b == k * p;
      CongIntro(a, b, p, k);
    }
    if Cong(a, b, p) {
      var k := CongElim(a, b, p);
      assert a - b == k * p;
    }
  }

  lemma Fermat(a: nat, p: int)
    requires Prime(p) && !Divides(p, a)
    ensures Cong(Pow(a, p - 1), 1, p)
  {
    FermatPower(a, p);
    DividesCong(p, Pow(a, p), a);
    assert Pow(a, p) - a == a * (Pow(a, p - 1) - 1) by { MulDist(a, Pow(a, p - 1), -1); }
    EuclidLemma(p, a, Pow(a, p - 1) - 1);
    DividesCong(p, Pow(a, p - 1), 1);
  }

  /** One has only the square roots 1 and -1 modulo a prime. */
  lemma RootsOfOne(a: int, p: int)
    requires Prime(p) && 0 < a < p && Cong(a * a, 1, p)
    ensures a == 1 || a == p - 1
  {
    DividesCong(p, a * a, 1);
    assert a * a - 1 == (a - 1) * (a + 1) by { MulDist(a + 1, a, -1); MulDist(a, a, 1); }
    if a != 1 {
      if Divides(p, a - 1) { DividesLe(p, a - 1); }
      EuclidLemma(p, a - 1, a + 1);
      DividesLe(p, a + 1);
    }
  }
}
