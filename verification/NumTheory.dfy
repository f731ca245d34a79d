/** Greatest common divisors and inverses: what gcd and inv_mod are measured against. */
module NumTheory {
  import opened Arith

  /** Euclid's definition. */
  function Gcd(a: nat, b: nat): nat
    decreases b
  {
    if b == 0 then a else
      assert 0 <= a % b < b by { DivModFacts(a, b); }
      Gcd(b, a % b)
  }

  lemma {:induction false} GcdDivides(a: nat, b: nat)
    ensures Divides(Gcd(a, b), a) && Divides(Gcd(a, b), b)
    decreases b
  {
    var g := Gcd(a, b);
    if b == 0 {
      assert a == 1 * g && 0 == 0 * g;
    } else {
      DivModFacts(a, b);
      GcdDivides(b, a % b);
      DividesLinear(g, b, a % b, a / b, 1);
    }
  }

  lemma {:induction false} Bezout(a: nat, b: nat) returns (x: int, y: int)
    ensures x * a + y * b == Gcd(a, b)
    decreases b
  {
    if b == 0 {
      x, y := 1, 0;
    } else {
      DivModFacts(a, b);
      var u, v := Bezout(b, a % b);
      x, y := v, u - v * (a / b);
      BezoutStep(a, b, a / b, a % b, u, v);
    }
  }

  lemma BezoutStep(a: int, b: int, q: int, r: int, u: int, v: int)
    requires a == q * b + r
    ensures v * a + (u - v * q) * b == u * b + v * r
  {
    MulDist(v, q * b, r);
    MulAssoc(v, q, b);
    MulDist(b, u, -(v * q));
    assert -(v * q) * b == -((v * q) * b);
  }

  /** Every common divisor divides the gcd. */
  lemma GcdGreatest(a: nat, b: nat, d: int)
    requires Divides(d, a) && Divides(d, b)
    ensures Divides(d, Gcd(a, b))
  {
    var x, y := Bezout(a, b);
    DividesLinear(d, a, b, x, y);
  }

  lemma DividesAntisym(a: nat, b: nat)
    requires Divides(a, b) && Divides(b, a)
    ensures a == b
  {
    if a == 0 || b == 0 {
      var j :| b == j * a;
      var k :| a == k * b;
    } else {
      DividesLe(a, b);
      DividesLe(b, a);
    }
  }

  /** The gcd is the only nonnegative common divisor that all others divide. */
  lemma GcdUnique(a: nat, b: nat, g: nat)
    requires Divides(g, a) && Divides(g, b) && Divides(Gcd(a, b), g)
    ensures g == Gcd(a, b)
  {
    GcdGreatest(a, b, g);
    DividesAntisym(g, Gcd(a, b));
  }

  lemma DividesTimes(d: int, a: int, m: int)
    requires Divides(d, a)
    ensures Divides(d * m, a * m)
  {
    var k :| a == k * d;
    MulAssoc(k, d, m);
    assert a * m == k * (d * m);
  }

  lemma DividesTrans(a: int, b: int, c: int)
    requires Divides(a, b) && Divides(b, c)
    ensures Divides(a, c)
  {
    var j :| b == j * a;
    var k :| c == k * b;
    MulAssoc(k, j, a);
    assert c == (k * j) * a;
  }

  lemma GcdScale(a: nat, b: nat, m: nat)
    requires 0 <= a * m && 0 <= b * m
    ensures Gcd(a * m, b * m) == Gcd(a, b) * m
  {
    var g := Gcd(a, b);
    GcdDivides(a, b);
    DividesTimes(g, a, m);
    DividesTimes(g, b, m);
    var x, y := Bezout(a, b);
    var h := Gcd(a * m, b * m);
    GcdDivides(a * m, b * m);
    DividesLinear(h, a * m, b * m, x, y);
    assert x * (a * m) + y * (b * m) == g * m by {
      MulAssoc(x, a, m);
      MulAssoc(y, b, m);
      MulDist(m, x * a, y * b);
    }
    MulLe(0, g, m);
    GcdUnique(a * m, b * m, g * m);
  }

  // ---------- Odd divisors ----------

  lemma OddDividesDouble(d: int, x: int)
    requires d % 2 == 1 && Divides(d, 2 * x)
    ensures Divides(d, x)
  {
    var k :| 2 * x == k * d;
    OddProduct(k, d, x);
    var j := k / 2;
    MulAssoc(2, j, d);
    assert x == j * d;
  }

  lemma OddProduct(k: int, d: int, x: int)
    requires d % 2 == 1 && k * d == 2 * x
    ensures k % 2 == 0
  {
    if k % 2 == 1 {
      var i, j := k / 2, d / 2;
      assert k * d == (2 * i + 1) * (2 * j + 1);
      MulDist(2 * i + 1, 2 * j, 1);
      MulAssoc(2 * i + 1, 2, j);
      MulAssoc(2, 2 * i + 1, j);
    }
  }

  lemma {:induction false} OddDividesPow2(d: int, x: int, k: nat)
    requires d % 2 == 1
    ensures Divides(d, x * Pow(2, k)) <==> Divides(d, x)
  {
    if Divides(d, x) { DividesLinear(d, x, 0 * d, Pow(2, k), 0); }
    if k == 0 {
      assert x * Pow(2, 0) == x;
    } else if Divides(d, x * Pow(2, k)) {
      MulAssoc(x, 2, Pow(2, k - 1));
      MulAssoc(2, x, Pow(2, k - 1));
      OddDividesDouble(d, x * Pow(2, k - 1));
      OddDividesPow2(d, x, k - 1);
    }
  }
}
