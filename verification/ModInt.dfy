/**
 mbedtls_mpi_mod_int: the remainder by a small divisor, half a limb at a time. The running
 remainder is shifted left in a limb, so a divisor above 2^biH can lose its top bits.
 */
module ModInt {
  import opened Arith
  import opened Limbs
  import opened BigNum
  import opened IntDiv
  import opened NumTheory
  import opened Bits

  /**
   The remainder moves up half a limb, h enters below, and the sum is reduced; what does not fit in
   a limb is lost.
   */
  function HalfStep(y: Limb, h: int, b: Limb): (r: Limb)
    requires b > 0 && y < b && 0 <= h < HalfRadix(B)
    ensures r < b
  {
    HalfStepFits(y, h, b);
    (y * HalfRadix(B) % B + h) % b
  }

  lemma HalfStepFits(y: Limb, h: int, b: Limb)
    requires b > 0 && 0 <= h < HalfRadix(B)
    ensures 0 <= y * HalfRadix(B) % B && 0 <= (y * HalfRadix(B) % B + h) % b < b
  {
  }

  ghost function LimbStep(y: Limb, x: Limb, b: Limb): (r: Limb)
    requires b > 0 && y < b
    ensures r < b
  {
    HalvesFit(x);
    HalfStep(HalfStep(y, x / HalfRadix(B), b), x % HalfRadix(B), b)
  }

  lemma HalvesFit(x: Limb)
    ensures HalfRadix(B) > 0 && 0 <= x / HalfRadix(B) < HalfRadix(B) && 0 <= x % HalfRadix(B) < HalfRadix(B)
    ensures x == x / HalfRadix(B) * HalfRadix(B) + x % HalfRadix(B)
  {
    HalfFacts();
    var h := HalfRadix(B);
    DivModFacts(x, h);
    if x / h >= h { MulLe(h, x / h, h); }
  }

  /** The remainder the loop arrives at, top limb first. */
  ghost function ModRun(p: seq<Limb>, b: Limb): (r: Limb)
    requires b > 0
    ensures r < b
  {
    if p == [] then 0 else LimbStep(ModRun(p[1..], b), p[0], b)
  }

  /** The divisors for which the loop is right. */
  ghost predicate Safe(b: Limb)
  {
    0 < b && (b <= HalfRadix(B) || B % b == 0)
  }

  lemma HalfStepExact(y: Limb, h: int, b: Limb)
    requires Safe(b) && y < b && 0 <= h < HalfRadix(B)
    ensures Cong(HalfStep(y, h, b), y * HalfRadix(B) + h, b)
  {
    var H := HalfRadix(B);
    HalfFacts();
    var t := y * H % B;
    if b <= H {
      MulLt(y, H, H);
      ModSmall(y * H, B);
      assert t == y * H;
      CongIntro(t, y * H, b, 0);
    } else {
      DivModFacts(B, b);
      DivModFacts(y * H, B);
      var k := y * H / B;
      MulAssoc(k, B / b, b);
      CongIntro(t, y * H, b, 0 - k * (B / b));
    }
    CongIntro(h, h, b, 0);
    CongAdd(t, y * H, h, h, b);
    CongMod(t + h, b);
  }

  lemma LimbStepExact(y: Limb, x: Limb, b: Limb)
    requires Safe(b) && y < b
    ensures Cong(LimbStep(y, x, b), y * B + x, b)
  {
    var H := HalfRadix(B);
    HalvesFit(x);
    HalfFacts();
    var hi, lo := x / H, x % H;
    var u := HalfStep(y, hi, b);
    HalfStepExact(y, hi, b);
    HalfStepExact(u, lo, b);
    CongIntro(H, H, b, 0);
    CongIntro(lo, lo, b, 0);
    CongMul(u, y * H + hi, H, H, b);
    CongAdd(u * H, (y * H + hi) * H, lo, lo, b);
    assert (y * H + hi) * H + lo == y * B + x by {
      MulDist(H, y * H, hi);
      MulAssoc(y, H, H);
    }
  }

  /** Right for every number, if the divisor is at most 2^biH or divides 2^biL. */
  lemma {:induction false} ModRunExact(p: seq<Limb>, b: Limb)
    requires Safe(b)
    ensures ModRun(p, b) == Val(p) % b
  {
    if p == [] {
      ModSmall(0, b);
    } else {
      var y, v := ModRun(p[1..], b), Val(p[1..]);
      ModRunExact(p[1..], b);
      LimbStepExact(y, p[0], b);
      CongMod(v, b);
      CongIntro(B, B, b, 0);
      CongIntro(p[0], p[0], b, 0);
      CongMul(y, v, B, B, b);
      CongAdd(y * B, v * B, p[0], p[0], b);
      assert v * B + p[0] == Val(p);
      ModSmall(ModRun(p, b), b);
    }
  }

  lemma {:induction false} DivisorOfPow2(b: nat, n: nat) returns (k: nat)
    requires b > 0 && Divides(b, Pow(2, n))
    ensures k <= n && b == Pow(2, k)
  {
    var q :| Pow(2, n) == q * b;
    if n == 0 {
      k := 0;
      if q <= 0 { MulLe(q, 0, b); } else { MulLe(1, q, b); }
    } else if b % 2 == 0 {
      MulAssoc(q, 2, b / 2);
      assert Pow(2, n - 1) == q * (b / 2);
      k := DivisorOfPow2(b / 2, n - 1);
      k := k + 1;
    } else {
      OddProduct(q, b, Pow(2, n - 1));
      MulAssoc(2, q / 2, b);
      assert Pow(2, n - 1) == (q / 2) * b;
      k := DivisorOfPow2(b, n - 1);
    }
  }

  /** Any other divisor is wrong for 2^biH * 2^biL: its remainder comes out as 0. */
  lemma UnsafeFails(b: Limb)
    requires b > 0 && !Safe(b)
    ensures ModRun([0, HalfRadix(B)], b) == 0 && Val([0, HalfRadix(B)]) % b != 0
  {
    var H := HalfRadix(B);
    HalfFacts();
    var p := [0 as Limb, H];
    assert p[1..] == [H] && [H as Limb][1..] == [];
    FirstLimb(b);
    SecondLimb(b);
    assert Val(p) == B * Val([H as Limb]) && Val([H as Limb]) == H by { ValOne(H); }
    if Val(p) % b == 0 { Divided(b); }
  }

  lemma Divided(b: Limb)
    requires b > 0 && B * HalfRadix(B) % b == 0
    ensures B % b == 0
  {
    HalfPow();
    PowAdd(2, LimbBits(B), LimbBits(B) / 2);
    SmallPowerDivisor(b, LimbBits(B), LimbBits(B) / 2);
  }

  lemma SmallPowerDivisor(b: nat, l: nat, m: nat)
    requires 0 < b < Pow(2, l) && Pow(2, l + m) % b == 0
    ensures Pow(2, l) % b == 0
  {
    DividesMod(b, Pow(2, l + m));
    var k := DivisorOfPow2(b, l + m);
    if k >= l { PowMono(2, l, k); }
    PowAdd(2, l - k, k);
    DivModUnique(Pow(2, l), b, Pow(2, l - k), 0);
  }

  lemma HalfPow()
    ensures Pow(2, LimbBits(B)) == B && Pow(2, LimbBits(B) / 2) == HalfRadix(B) && LimbBits(B) >= 32
  {
    RadixPow();
    HalfFacts();
    var l := LimbBits(B);
    assert l / 2 + l / 2 == l;
    PowAdd(2, l / 2, l / 2);
    SquareRoot(Pow(2, l / 2), HalfRadix(B));
  }

  lemma SquareRoot(x: int, y: int)
    requires x >= 0 && y >= 0 && x * x == y * y
    ensures x == y
  {
    if x < y { MulLtMul(x, x, y, y); }
    if y < x { MulLtMul(y, y, x, x); }
  }

  lemma FirstLimb(b: Limb)
    requires b > HalfRadix(B)
    ensures ModRun([HalfRadix(B)], b) == HalfRadix(B)
  {
    var H := HalfRadix(B);
    HalfFacts();
    assert [H as Limb][1..] == [];
    DivModUnique(H, H, 1, 0);
    MulLt(1, H, H);
    ModSmall(0, B);
    ModSmall(1, b);
    ModSmall(H, B);
    ModSmall(H, b);
    assert HalfStep(0, 1, b) == 1 && HalfStep(1, 0, b) == H;
  }

  lemma SecondLimb(b: Limb)
    requires b > HalfRadix(B)
    ensures LimbStep(HalfRadix(B), 0, b) == 0
  {
    var H := HalfRadix(B);
    HalfFacts();
    DivModUnique(0, H, 0, 0);
    DivModUnique(H * H, B, 1, 0);
    ModSmall(0, B);
    ModSmall(0, b);
    assert HalfStep(H, 0, b) == 0 && HalfStep(0, 0, b) == 0;
  }

  /** So the loop is right for all numbers exactly with these divisors. */
  lemma RightExactlyWhenSafe(b: Limb)
    requires b > 0
    ensures (forall p: seq<Limb> :: ModRun(p, b) == Val(p) % b) <==> Safe(b)
  {
    if Safe(b) {
      forall p: seq<Limb>
        ensures ModRun(p, b) == Val(p) % b
      {
        ModRunExact(p, b);
      }
    } else {
      HalfFacts();
      UnsafeFails(b);
    }
  }

  /** r = A mod b. */
  method ModInt(A: Mpi, b: int) returns (ret: Status, r: Limb)
    requires A.Valid() && 0 - B < 2 * b < B && (b == 2 ==> A.p != [])
    ensures ret == (if b == 0 then DivisionByZero else if b < 0 then NegativeValue else Ok)
    ensures ret == Ok && Safe(b) ==> r == A.Value() % b
    ensures ret == Ok && b > 2 ==> r == if A.s < 0 && ModRun(A.p, b) != 0 then b - ModRun(A.p, b) else ModRun(A.p, b)
  {
    r := 0;
    if b == 0 { return DivisionByZero, r; }
    if b < 0 { return NegativeValue, r; }
    if b == 1 { return Ok, r; }
    if b == 2 {
      Parity(A.p);
      r := A.p[0] % 2;
      return Ok, r;
    }
    var y: Limb := 0;
    var i := |A.p|;
    while i > 0
      invariant 0 <= i <= |A.p| && y < b && y == ModRun(A.p[i..], b)
    {
      var x := A.p[i - 1];
      HalvesFit(x);
      assert A.p[i - 1..][1..] == A.p[i..];
      y := HalfStep(y, x / HalfRadix(B), b);
      y := HalfStep(y, x % HalfRadix(B), b);
      i := i - 1;
    }
    assert A.p[0..] == A.p;
    if Safe(b) { ModRunExact(A.p, b); NegMod(A.Mag(), b); }
    if A.s < 0 && y != 0 { y := b - y; }
    return Ok, y;
  }

  lemma Parity(p: seq<Limb>)
    requires p != []
    ensures p[0] % 2 == Val(p) % 2 && (0 - Val(p)) % 2 == p[0] % 2
  {
    HalfFacts();
    var k := HalfRadix(B) / 2 * HalfRadix(B);
    assert B == 2 * k by { MulAssoc(2, HalfRadix(B) / 2, HalfRadix(B)); }
    MulAssoc(2, k, Val(p[1..]));
  }

  lemma NegMod(m: nat, b: int)
    requires b > 0
    ensures (0 - m) % b == if m % b == 0 then 0 else b - m % b
  {
    DivModFacts(m, b);
    var q, r := m / b, m % b;
    NegMul(q, b);
    if r == 0 { DivModUnique(0 - m, b, 0 - q, 0); }
    else { MulDist(b, 0 - q, 0 - 1); DivModUnique(0 - m, b, 0 - q - 1, b - r); }
  }
}
