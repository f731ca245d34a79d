/**
 Integer powers and congruences: the vocabulary in which the multi-precision
 modules state what their limb loops compute.
 */
module Arith {

  function Abs(x: int): nat {
    if x < 0 then -x else x
  }

  // ---------- Powers ----------

  function Pow(b: int, e: nat): (r: int)
    ensures b > 0 ==> r > 0
    ensures b >= 0 ==> r >= 0
  {
    if e == 0 then 1 else b * Pow(b, e - 1)
  }

  lemma {:induction false} PowAdd(b: int, m: nat, n: nat)
    ensures Pow(b, m + n) == Pow(b, m) * Pow(b, n)
  {
    if m > 0 {
      PowAdd(b, m - 1, n);
      MulAssoc(b, Pow(b, m - 1), Pow(b, n));
    }
  }

  lemma {:induction false} PowMulBase(a: int, b: int, e: nat)
    ensures Pow(a * b, e) == Pow(a, e) * Pow(b, e)
  {
    if e > 0 {
      PowMulBase(a, b, e - 1);
      MulSwap(a, b, Pow(a, e - 1), Pow(b, e - 1));
    }
  }

  lemma {:induction false} PowPow(b: int, m: nat, n: nat)
    requires 0 <= m * n
    ensures Pow(Pow(b, m), n) == Pow(b, m * n)
  {
    if n > 0 {
      assert m * n == m + m * (n - 1);
      assert 0 <= m * (n - 1);
      PowPow(b, m, n - 1);
      PowAdd(b, m, m * (n - 1));
    }
  }

  lemma {:induction false} PowMono(b: int, m: nat, n: nat)
    requires b > 0 && m <= n
    ensures Pow(b, m) <= Pow(b, n)
  {
    PowAdd(b, m, n - m);
    MulLe(1, Pow(b, n - m), Pow(b, m));
  }

  lemma {:induction false} PowOne(e: nat)
    ensures Pow(1, e) == 1
  {
    if e > 0 { PowOne(e - 1); }
  }

  // ---------- Order and multiplication ----------

  lemma MulAssoc(a: int, b: int, c: int)
    ensures a * (b * c) == (a * b) * c
  {
  }

  lemma MulDist(a: int, b: int, c: int)
    ensures a * (b + c) == a * b + a * c
    ensures (b + c) * a == b * a + c * a
  {
  }

  lemma MulSwap(a: int, b: int, c: int, d: int)
    ensures (a * b) * (c * d) == (a * c) * (b * d)
  {
    calc {
      (a * b) * (c * d);
      a * (b * c) * d;
      a * (c * b) * d;
      (a * c) * (b * d);
    }
  }

  lemma MulLe(x: int, y: int, z: int)
    requires x <= y && 0 <= z
    ensures x * z <= y * z
  {
  }

  lemma MulLt(x: int, y: int, z: int)
    requires x < y && 0 < z
    ensures x * z < y * z
  {
  }

  lemma MulLtMul(a: int, b: int, c: int, d: int)
    requires 0 <= a < c && 0 <= b < d
    ensures a * b < c * d
  {
    MulLe(a, c, b);
    MulLt(b, d, c);
  }

  lemma MulCancelLt(x: int, y: int, z: int)
    requires x * z < y * z && 0 <= z
    ensures x < y
  {
    if y <= x { MulLe(y, x, z); }
  }

  // ---------- Quotient and remainder ----------

  /** Division with remainder is unique. */
  lemma DivModUnique(a: int, m: int, q: int, r: int)
    requires m > 0 && a == q * m + r && 0 <= r < m
    ensures a / m == q && a % m == r
  {
    var q', r' := a / m, a % m;
    assert a == q' * m + r';
    assert (q - q') * m == r' - r;
    if q - q' >= 1 { MulLe(1, q - q', m); }
    if q - q' <= -1 { MulLe(q - q', -1, m); }
  }

  lemma DivModFacts(a: int, m: int)
    requires m > 0
    ensures a == (a / m) * m + a % m && 0 <= a % m < m
  {
  }

  lemma ModSmall(a: int, m: int)
    requires 0 <= a < m
    ensures a % m == a && a / m == 0
  {
    DivModUnique(a, m, 0, a);
  }

  lemma DivDiv(x: int, a: int, b: int)
    requires a > 0 && b > 0
    ensures a * b > 0 && (x / a) / b == x / (a * b)
  {
    MulLt(0, a, b);
    var y := x / a;
    DivModFacts(x, a);
    DivModFacts(y, b);
    calc {
      x;
      ((y / b) * b + y % b) * a + x % a;
      { MulDist(a, (y / b) * b, y % b); MulAssoc(y / b, b, a); }
      (y / b) * (b * a) + (y % b) * a + x % a;
    }
    MulLe(y % b, b - 1, a);
    MulLe(0, y % b, a);
    MulDist(a, b, -1);
    DivModUnique(x, a * b, y / b, (y % b) * a + x % a);
  }

  // ---------- Congruence ----------

  /** a and b leave the same remainder modulo m. */
  ghost predicate Cong(a: int, b: int, m: int)
    requires m > 0
  {
    a % m == b % m
  }

  lemma CongIntro(a: int, b: int, m: int, k: int)
    requires m > 0 && a == b + k * m
    ensures Cong(a, b, m)
  {
    DivModFacts(b, m);
    assert a == (b / m + k) * m + b % m;
    DivModUnique(a, m, b / m + k, b % m);
  }

  lemma CongElim(a: int, b: int, m: int) returns (k: int)
    requires m > 0 && Cong(a, b, m)
    ensures a == b + k * m
  {
    DivModFacts(a, m);
    DivModFacts(b, m);
    k := a / m - b / m;
    assert (a / m) * m - (b / m) * m == k * m;
  }

  lemma CongMod(a: int, m: int)
    requires m > 0
    ensures Cong(a % m, a, m)
  {
    DivModFacts(a, m);
    CongIntro(a, a % m, m, a / m);
  }

  lemma CongAdd(a: int, b: int, c: int, d: int, m: int)
    requires m > 0 && Cong(a, b, m) && Cong(c, d, m)
    ensures Cong(a + c, b + d, m)
  {
    var j := CongElim(a, b, m);
    var k := CongElim(c, d, m);
    assert (j + k) * m == j * m + k * m;
    CongIntro(a + c, b + d, m, j + k);
  }

  lemma CongNeg(a: int, b: int, m: int)
    requires m > 0 && Cong(a, b, m)
    ensures Cong(-a, -b, m)
  {
    var j := CongElim(a, b, m);
    assert (-j) * m == -(j * m);
    CongIntro(-a, -b, m, -j);
  }

  lemma CongSub(a: int, b: int, c: int, d: int, m: int)
    requires m > 0 && Cong(a, b, m) && Cong(c, d, m)
    ensures Cong(a - c, b - d, m)
  {
    CongNeg(c, d, m);
    CongAdd(a, b, -c, -d, m);
  }

  lemma CongCancel(a: int, b: int, w: int, m: int)
    requires m > 0 && Cong(a, w, m) && Cong(b, -w, m)
    ensures Cong(a + b, 0, m)
  {
    CongAdd(a, w, b, -w, m);
  }

  lemma CongMul(a: int, b: int, c: int, d: int, m: int)
    requires m > 0 && Cong(a, b, m) && Cong(c, d, m)
    ensures Cong(a * c, b * d, m)
  {
    var j := CongElim(a, b, m);
    var k := CongElim(c, d, m);
    calc {
      a * c;
      (b + j * m) * c;
      { MulDist(c, b, j * m); MulAssoc(j, m, c); MulAssoc(j, c, m); }
      b * c + (j * c) * m;
      { MulDist(b, d, k * m); MulAssoc(b, k, m); }
      b * d + (b * k) * m + (j * c) * m;
      { MulDist(m, b * k, j * c); }
      b * d + (b * k + j * c) * m;
    }
    CongIntro(a * c, b * d, m, b * k + j * c);
  }

  lemma {:induction false} CongPow(a: int, b: int, e: nat, m: int)
    requires m > 0 && Cong(a, b, m)
    ensures Cong(Pow(a, e), Pow(b, e), m)
  {
    if e > 0 {
      CongPow(a, b, e - 1, m);
      CongMul(a, b, Pow(a, e - 1), Pow(b, e - 1), m);
    }
  }

  /** A residue in range is the only one in its class. */
  lemma CongUnique(a: int, b: int, m: int)
    requires 0 <= a < m && 0 <= b < m && Cong(a, b, m)
    ensures a == b
  {
    ModSmall(a, m);
    ModSmall(b, m);
  }

  lemma CongZero(a: int, m: int)
    requires m > 0
    ensures Cong(a * m, 0, m) && Cong(m * a, 0, m)
  {
    CongIntro(a * m, 0, m, a);
  }

  // ---------- Divisibility ----------

  ghost predicate Divides(d: int, a: int) {
    exists k :: a == k * d
  }

  lemma DividesMod(d: int, a: int)
    requires d > 0
    ensures Divides(d, a) <==> a % d == 0
  {
    DivModFacts(a, d);
    if Divides(d, a) {
      var k :| a == k * d;
      DivModUnique(a, d, k, 0);
    }
    if a % d == 0 { assert a == (a / d) * d; }
  }

  lemma DividesLinear(d: int, a: int, b: int, x: int, y: int)
    requires Divides(d, a) && Divides(d, b)
    ensures Divides(d, x * a + y * b)
  {
    var j :| a == j * d;
    var k :| b == k * d;
    assert x * a + y * b == (x * j + y * k) * d;
  }

  lemma DividesLe(d: int, a: int)
    requires Divides(d, a) && a > 0
    ensures d <= a
  {
    var k :| a == k * d;
    if d > a {
      if k <= 0 { MulLe(k, 0, d); } else { MulLe(1, k, d); }
    }
  }
}
