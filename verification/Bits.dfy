/** Bit positions in limb buffers: mbedtls_clz, mbedtls_mpi_bitlen and mbedtls_mpi_lsb. */
module Bits {
  import opened Arith
  import opened Limbs
  import opened BigNum

  // ---------- Powers of two and the radix ----------

  lemma RadixPow()
    ensures LimbBits(B) >= 32 && Pow(2, LimbBits(B)) == B
  {
    RadixFacts();
    Pow2Values();
  }

  lemma Pow2Values()
    ensures Pow(2, 32) == 0x1_0000_0000 && Pow(2, 64) == 0x1_0000_0000_0000_0000
  {
    assert Pow(2, 2) == 4;
    PowAdd(2, 2, 2);
    PowAdd(2, 4, 4);
    PowAdd(2, 8, 8);
    PowAdd(2, 16, 16);
    PowAdd(2, 32, 32);
  }

  /** 2^(biL * i + j) is limb weight i times 2^j. */
  lemma {:induction false} Pow2Limbs(i: nat, j: nat)
    requires 0 <= i * LimbBits(B)
    ensures Pow(2, i * LimbBits(B) + j) == W(i) * Pow(2, j)
  {
    var l := LimbBits(B);
    RadixPow();
    MulAssoc(i, l, 1);
    PowAdd(2, i * l, j);
    assert l * i == i * l;
    PowPow(2, l, i);
  }

  /** B = 2^j * 2^(biL - j). */
  lemma RadixSplit(j: nat)
    requires j <= LimbBits(B)
    ensures Pow(2, j) * Pow(2, LimbBits(B) - j) == B
  {
    RadixPow();
    PowAdd(2, j, LimbBits(B) - j);
  }

  // ---------- Bit length ----------

  /** n is the number of significant bits of v. */
  ghost predicate IsBitLen(v: nat, n: nat) {
    if v == 0 then n == 0 else n > 0 && Pow(2, n - 1) <= v < Pow(2, n)
  }

  /** mbedtls_clz: the mask walks down from the top bit. */
  method Clz(x: Limb) returns (j: nat)
    ensures j <= LimbBits(B) && IsBitLen(x, LimbBits(B) - j)
  {
    RadixPow();
    var mask := Pow(2, LimbBits(B) - 1);
    j := 0;
    while j < LimbBits(B) && (x / mask) % 2 == 0
      invariant j <= LimbBits(B)
      invariant if j < LimbBits(B) then mask == Pow(2, LimbBits(B) - 1 - j) && x < 2 * mask else x == 0
    {
      TopBitClear(x, mask);
      mask := mask / 2;
      j := j + 1;
    }
    if j < LimbBits(B) { TopBitSet(x, mask); }
  }

  lemma TopBitClear(x: int, m: int)
    requires 0 <= x < 2 * m && (x / m) % 2 == 0
    ensures x < m
  {
    if x >= m { DivModUnique(x, m, 1, x - m); }
  }

  lemma TopBitSet(x: int, m: int)
    requires 0 <= x < 2 * m && (x / m) % 2 != 0
    ensures m <= x
  {
    if x < m { DivModUnique(x, m, 0, x); }
  }

  /** mbedtls_mpi_bitlen */
  method BitLen(X: Mpi) returns (n: nat)
    ensures IsBitLen(X.Mag(), n)
    ensures X.p != [] && X.Mag() > 0 ==> (Sig(X.p) - 1) * LimbBits(B) < n <= Sig(X.p) * LimbBits(B)
  {
    if X.p == [] { return 0; }
    var i := TopLimb(X.p);
    var z := Clz(X.p[i]);
    n := i * LimbBits(B) + (LimbBits(B) - z);
    BitLenOfTop(X.p, i, LimbBits(B) - z);
  }

  lemma BitLenOfTop(p: seq<Limb>, i: nat, j: nat)
    requires i < |p| && (forall k :: i < k < |p| ==> p[k] == 0) && (i > 0 ==> p[i] != 0)
    requires 0 <= i * LimbBits(B) && IsBitLen(p[i], j)
    ensures IsBitLen(Val(p), i * LimbBits(B) + j)
    ensures Val(p) == 0 <==> j == 0
  {
    ValTrailing(p, i + 1);
    ValSnoc(p, i);
    if p[i] == 0 {
      assert p[..0] == [];
    } else {
      ValBound(p[..i]);
      Pow2Limbs(i, j - 1);
      Pow2Limbs(i, j);
      ScaledBounds(Val(p[..i]), W(i), p[i], Pow(2, j - 1), Pow(2, j));
    }
  }

  lemma ScaledBounds(lo: int, w: int, x: int, a: int, b: int)
    requires 0 <= lo < w && a <= x < b
    ensures w * a <= lo + x * w < w * b
  {
    MulLe(a, x, w);
    MulLe(x + 1, b, w);
    MulDist(w, x, 1);
  }

  // ---------- Lowest set bit ----------

  /** n is the number of trailing zero bits of v. */
  ghost predicate IsLsb(v: nat, n: nat) {
    exists k :: k % 2 == 1 && v == k * Pow(2, n)
  }

  /** mbedtls_mpi_lsb: 0 for a zero value. */
  method Lsb(X: Mpi) returns (n: nat)
    ensures if X.Mag() == 0 then n == 0 else IsLsb(X.Mag(), n)
  {
    var i := 0;
    while i < |X.p|
      invariant i <= |X.p| && forall k :: 0 <= k < i ==> X.p[k] == 0
    {
      var j := LimbLsb(X.p[i]);
      if j < LimbBits(B) {
        n := i * LimbBits(B) + j;
        LsbOfLimb(X.p, i, j);
        return;
      }
      i := i + 1;
    }
    ValZeros(X.p);
    return 0;
  }

  /** The inner loop of mbedtls_mpi_lsb: the first j with bit j of x set, biL if there is none. */
  method LimbLsb(x: Limb) returns (j: nat)
    ensures j <= LimbBits(B)
    ensures if j < LimbBits(B) then IsLsb(x, j) else x == 0
  {
    j := 0;
    assert x == x * Pow(2, 0);
    ghost var k: int := x;
    while j < LimbBits(B)
      invariant j <= LimbBits(B) && x == k * Pow(2, j) && k >= 0
    {
      LowBits(x, k, Pow(2, j));
      if (x / Pow(2, j)) % 2 != 0 { return; }
      k := k / 2;
      assert (2 * k) * Pow(2, j) == k * Pow(2, j + 1) by { MulAssoc(k, 2, Pow(2, j)); }
      j := j + 1;
    }
    RadixPow();
    if k > 0 { MulLe(1, k, B); }
  }

  lemma LowBits(x: int, k: int, m: int)
    requires m > 0 && x == k * m
    ensures x / m == k
  {
    DivModUnique(x, m, k, 0);
  }

  lemma LsbOfLimb(p: seq<Limb>, i: nat, j: nat)
    requires i < |p| && (forall k :: 0 <= k < i ==> p[k] == 0)
    requires j < LimbBits(B) && IsLsb(p[i], j) && 0 <= i * LimbBits(B)
    ensures Val(p) > 0 && IsLsb(Val(p), i * LimbBits(B) + j)
  {
    var t := Val(p[i..]);
    ValSplit(p, i);
    ValZeros(p[..i]);
    ValHead(p, i);
    var k := TailLsb(p[i], Val(p[i + 1..]), j);
    Pow2Limbs(i, j);
    ScaledLsb(W(i), t, k, Pow(2, j));
  }

  lemma ScaledLsb(w: int, t: int, k: int, m: int)
    requires w > 0 && k > 0 && m > 0 && t == k * m
    ensures w * t == k * (w * m) && w * t > 0
  {
    MulAssoc(w, k, m);
    MulAssoc(k, w, m);
    PositiveProduct(w, m);
    PositiveProduct(k, w * m);
  }

  /** Limbs above do not move the lowest set bit. */
  lemma TailLsb(x: Limb, rest: nat, j: nat) returns (odd: int)
    requires j < LimbBits(B) && IsLsb(x, j)
    ensures odd > 0 && odd % 2 == 1 && x + B * rest == odd * Pow(2, j)
  {
    var k :| k % 2 == 1 && x == k * Pow(2, j);
    var h := Pow(2, LimbBits(B) - j - 1);
    assert B == (2 * h) * Pow(2, j) by { RadixSplit(j); }
    OddSum(k, Pow(2, j), h, rest);
    odd := k + (2 * h) * rest;
    calc {
      odd * Pow(2, j);
      { MulDist(Pow(2, j), k, (2 * h) * rest); }
      x + ((2 * h) * rest) * Pow(2, j);
      { MulAssoc(2 * h, rest, Pow(2, j)); MulAssoc(2 * h, Pow(2, j), rest); }
      x + ((2 * h) * Pow(2, j)) * rest;
    }
  }

  lemma OddSum(k: int, m: int, h: int, rest: int)
    requires k % 2 == 1 && k * m >= 0 && m > 0 && h > 0 && rest >= 0
    ensures k + (2 * h) * rest > 0 && (k + (2 * h) * rest) % 2 == 1
  {
    if k < 0 { MulLe(k, -1, m); }
    MulAssoc(2, h, rest);
    MulLe(0, h, rest);
  }

  lemma PositiveProduct(a: int, b: int)
    requires a > 0 && b > 0
    ensures a * b > 0
  {
  }
}
