/** mpi_montg_init, mpi_montmul and mpi_montred (HAC 14.36). */
module Montgomery {
  import opened Arith
  import opened Limbs
  import opened LimbOps
  import opened BigNum
  import opened Compare
  import opened AddSub
  import opened Bits

  /** mm is the Montgomery factor of a modulus whose lowest limb is n0: mm * n0 = -1 mod 2^biL. */
  ghost predicate IsMontFactor(mm: Limb, n0: Limb) {
    Cong(mm * n0, -1, B)
  }

  // ---------- mpi_montg_init ----------

  /** Newton's iteration modulo 2^biL, doubling the correct bits each round. */
  method MontgInit(m0: Limb) returns (mm: Limb)
    requires m0 % 2 == 1
    ensures IsMontFactor(mm, m0)
  {
    // four correct bits to start with
    var x: Limb := AddW(m0, 8 * SeedBit(m0));
    SeedInverse(m0, x);
    var i := LimbBits(B);
    ghost var j := 4;
    BitsPower();
    while i >= 8
      invariant IsStage(i, j) && Cong(m0 * x, 1, Pow(2, j))
    {
      ghost var x0 := x;
      x := MulW(x, SubW(2, MulW(m0, x)));
      NewtonStep(m0, x0, x, j);
      i, j := i / 2, 2 * j;
    }
    RadixPow();
    mm := SubW(0, x);
    NegatedInverse(m0, x, mm);
  }

  /** i counts down as the number j of correct bits goes up. */
  ghost predicate IsStage(i: int, j: int) {
    || (i == 64 && j == 4 && LimbBits(B) == 64)
    || (i == 32 && j == LimbBits(B) / 8)
    || (i == 16 && j == LimbBits(B) / 4)
    || (i == 8 && j == LimbBits(B) / 2)
    || (i == 4 && j == LimbBits(B))
  }

  lemma BitsPower()
    ensures LimbBits(B) == 32 || LimbBits(B) == 64
    ensures Pow(2, 4) == 16
  {
    assert Pow(2, 2) == 4;
    PowAdd(2, 2, 2);
  }

  lemma RadixModPow2(j: nat)
    requires j <= LimbBits(B)
    ensures Cong(B, 0, Pow(2, j))
  {
    RadixSplit(j);
    CongZero(Pow(2, LimbBits(B) - j), Pow(2, j));
  }

  /** A limb result taken modulo B is still right modulo a smaller power of two. */
  lemma CongCoarser(a: int, b: int, j: nat)
    requires j <= LimbBits(B) && Cong(a, b, B)
    ensures Cong(a, b, Pow(2, j))
  {
    var k := CongElim(a, b, B);
    RadixModPow2(j);
    CongMul(k, k, B, 0, Pow(2, j));
    CongAdd(b, b, k * B, 0, Pow(2, j));
  }

  lemma AddWCong(a: Limb, b: Limb)
    ensures Cong(AddW(a, b), a + b, B)
  {
    CongIntro(AddW(a, b), a + b, B, 0 - Bit(AddW(a, b) < b));
  }

  lemma SubWCong(a: Limb, b: Limb)
    ensures Cong(SubW(a, b), a - b, B)
  {
    CongIntro(SubW(a, b), a - b, B, Bit(a < b));
  }

  /** Wrapping at the radix does not disturb the low four bits. */
  lemma AddWLow(a: Limb, b: Limb)
    ensures AddW(a, b) % 16 == (a + b) % 16
  {
    RadixFacts();
  }

  /** Bit 2 of m0 + 2. */
  function SeedBit(m0: Limb): (t: int)
    ensures 0 <= t <= 1 && t == ((m0 + 2) % 16 / 4) % 2
  {
    AddWLow(m0, 2);
    BitTwo(AddW(m0, 2), AddW(m0, 2) / 16, AddW(m0, 2) % 16);
    (AddW(m0, 2) / 4) % 2
  }

  lemma BitTwo(u: int, k: int, r: int)
    requires u == 16 * k + r && 0 <= r < 16
    ensures (u / 4) % 2 == (r / 4) % 2
  {
    DivModUnique(u, 4, 4 * k + r / 4, r % 4);
    DivModUnique(4 * k + r / 4, 2, 2 * k + r / 4 / 2, (r / 4) % 2);
  }

  lemma SeedInverse(m0: Limb, x: Limb)
    requires m0 % 2 == 1 && x == AddW(m0, 8 * SeedBit(m0))
    ensures Cong(m0 * x, 1, 16)
  {
    var t := SeedBit(m0);
    assert x % 16 == (m0 + 8 * t) % 16 by { AddWLow(m0, 8 * t); }
    var r, y := m0 % 16, x % 16;
    assert (r * y) % 16 == 1 by { SeedTable(m0, t, x); }
    CongMod(m0, 16);
    CongMod(x, 16);
    CongMul(m0, r, x, y, 16);
  }

  lemma SeedTable(m: int, t: int, x: int)
    requires m % 2 == 1 && t == ((m + 2) % 16 / 4) % 2 && x % 16 == (m + 8 * t) % 16
    ensures ((m % 16) * (x % 16)) % 16 == 1
  {
    var r := m % 16;
    assert r == 1 || r == 3 || r == 5 || r == 7 || r == 9 || r == 11 || r == 13 || r == 15;
  }

  lemma NewtonStep(m0: Limb, x: Limb, x': Limb, j: nat)
    requires 2 * j <= LimbBits(B) && Cong(m0 * x, 1, Pow(2, j))
    requires x' == MulW(x, SubW(2, MulW(m0, x)))
    ensures Cong(m0 * x', 1, Pow(2, 2 * j))
  {
    var t := m0 * x;
    NewtonResidue(m0, x, x');
    CongCoarser(m0 * x', t * (2 - t), 2 * j);
    var k := CongElim(t, 1, Pow(2, j));
    PowAdd(2, j, j);
    NewtonAlgebra(t, k, Pow(2, j));
    CongIntro(t * (2 - t), 1, Pow(2, 2 * j), -(k * k));
  }

  lemma NewtonResidue(m0: Limb, x: Limb, x': Limb)
    requires x' == MulW(x, SubW(2, MulW(m0, x)))
    ensures Cong(m0 * x', (m0 * x) * (2 - m0 * x), B)
  {
    var y := MulW(m0, x);
    var z := SubW(2, y);
    SubWCong(2, y);
    CongSub(2, 2, y, m0 * x, B);
    CongMul(x, x, z, 2 - m0 * x, B);
    CongMul(m0, m0, x', x * (2 - m0 * x), B);
    MulAssoc(m0, x, 2 - m0 * x);
  }

  lemma NewtonAlgebra(t: int, k: int, p: int)
    requires t == 1 + k * p
    ensures t * (2 - t) == 1 + -(k * k) * (p * p)
  {
    var u := k * p;
    assert (1 + u) * (1 - u) == 1 - u * u;
    MulSwap(k, p, k, p);
  }

  lemma NegatedInverse(m0: Limb, x: Limb, mm: Limb)
    requires Cong(m0 * x, 1, B) && mm == SubW(0, x)
    ensures IsMontFactor(mm, m0)
  {
    SubWCong(0, x);
    CongMul(mm, 0 - x, m0, m0, B);
    CongNeg(m0 * x, 1, B);
    NegMul(x, m0);
  }

  // ---------- mpi_montmul ----------

  /** The modulus as montmul uses it: odd, with its Montgomery factor. */
  ghost predicate IsModulus(n: seq<Limb>, mm: Limb) {
    |n| > 0 && Val(n) > 0 && IsMontFactor(mm, n[0])
  }

  /** The highest limb that round i writes: the one beyond the window, which is cleared for the next round. */
  function LastWritten(i: nat, n: nat): nat {
    i + n + 2
  }

  /** The rounds stay in the workspace if and only if it has 2 * (n + 1) limbs; the last one writes limb 2n + 1. */
  lemma WorkspaceExactly(n: nat, len: nat)
    requires n > 0
    ensures (forall i :: 0 <= i < n ==> LastWritten(i, n) < len) <==> len >= 2 * (n + 1)
    ensures LastWritten(n - 1, n) == 2 * n + 1
  {
    assert LastWritten(n - 1, n) == 2 * n + 1;
  }

  /** The test for n + 1 limbs admits workspaces that the last round overruns. */
  lemma TestIsTooWeak(n: nat, len: nat)
    requires n > 0 && n + 1 <= len <= 2 * n + 1
    ensures exists i :: 0 <= i < n && LastWritten(i, n) >= len
  {
    assert LastWritten(n - 1, n) >= len;
  }

  /**
   One round: T = (T + u0*B + u1*N) / 2^biL on the window d = T->p + i. The sum stays
   inside n + 2 limbs, its lowest limb vanishes, and what is left is below N + B again.
   */
  method MontRound(T: Mpi, i: nat, u0: Limb, b: seq<Limb>, n: seq<Limb>, mm: Limb) returns (ghost u1: Limb)
    requires IsModulus(n, mm) && 0 < |b| <= |n| && Val(b) <= Val(n)
    requires LastWritten(i, |n|) < |T.p|
    requires Val(T.p[i..]) < Val(n) + Val(b)
    modifies T`p
    ensures |T.p| == |old(T.p)| && T.p[..i + 1] == old(T.p)[..i] + [u0]
    ensures B * Val(T.p[i + 1..]) == Val(old(T.p)[i..]) + u0 * Val(b) + u1 * Val(n)
    ensures Val(T.p[i + 1..]) < Val(n) + Val(b)
  {
    ghost var d := Val(T.p[i..]);
    var k := MulW(AddW(T.p[i], MulW(u0, b[0])), mm);
    u1 := k;
    assert Cong(d + u0 * Val(b) + k * Val(n), 0, B) by { LowLimbVanishes(T.p[i..], u0, b, n, mm, k); }
    RoundBound(d, Val(n), Val(b), u0, k);
    assert Val(n) < W(|n|) by { ValBound(n); }
    RoundRoom(Val(n), Val(b), |n|, |T.p| - i);
    assert b[..|b|] == b && n[..|n|] == n;
    T.MulHlp(|b|, b, i, u0);
    T.MulHlp(|n|, n, i, k);
    ghost var t := T.p;
    WindowShift(t, i, d + u0 * Val(b) + k * Val(n), Val(n), Val(b), |n|);
    T.p := T.p[i := u0];
    T.p := T.p[LastWritten(i, |n|) := 0];
    assert T.p[i + 1..] == t[i + 1..];
  }

  lemma ValModLow(p: seq<Limb>)
    requires |p| > 0
    ensures Cong(Val(p), p[0], B)
  {
    CongIntro(Val(p), p[0], B, Val(p[1..]));
  }

  lemma LowLimbVanishes(d: seq<Limb>, u0: Limb, b: seq<Limb>, n: seq<Limb>, mm: Limb, u1: Limb)
    requires |d| > 0 && |b| > 0 && IsModulus(n, mm)
    requires u1 == MulW(AddW(d[0], MulW(u0, b[0])), mm)
    ensures Cong(Val(d) + u0 * Val(b) + u1 * Val(n), 0, B)
  {
    var w := AddW(d[0], MulW(u0, b[0]));
    SumLow(d, u0, b);
    ProductLow(u1, w, mm, n);
    CongCancel(Val(d) + u0 * Val(b), u1 * Val(n), w, B);
  }

  lemma SumLow(d: seq<Limb>, u0: Limb, b: seq<Limb>)
    requires |d| > 0 && |b| > 0
    ensures Cong(Val(d) + u0 * Val(b), AddW(d[0], MulW(u0, b[0])), B)
  {
    ValModLow(d);
    ValModLow(b);
    CongMul(u0, u0, Val(b), b[0], B);
    CongAdd(Val(d), d[0], u0 * Val(b), MulW(u0, b[0]), B);
    AddWCong(d[0], MulW(u0, b[0]));
  }

  lemma ProductLow(u1: Limb, w: Limb, mm: Limb, n: seq<Limb>)
    requires IsModulus(n, mm) && u1 == MulW(w, mm)
    ensures Cong(u1 * Val(n), 0 - w, B)
  {
    ValModLow(n);
    CongMul(u1, w * mm, Val(n), n[0], B);
    CongMul(w, w, mm * n[0], -1, B);
    MulAssoc(w, mm, n[0]);
  }

  lemma RoundBound(d: int, n: int, b: int, u0: Limb, u1: Limb)
    requires d < n + b && 0 <= b && 0 <= n
    ensures d + u0 * b <= d + u0 * b + u1 * n < B * (n + b)
  {
    assert u0 * b <= B * b - b by { MulLe(u0, B - 1, b); MulDist(b, B, -1); }
    assert u1 * n <= B * n - n by { MulLe(u1, B - 1, n); MulDist(n, B, -1); }
    MulLe(0, u1, n);
    MulDist(B, n, b);
  }

  lemma TwiceFits(n: int, b: int, len: nat)
    requires b <= n < W(len)
    ensures n + b < W(len + 1)
  {
    MulLe(2, B, W(len));
  }

  lemma RoundRoom(n: int, b: int, len: nat, room: nat)
    requires b <= n < W(len) && len + 2 <= room
    ensures B * (n + b) <= W(room)
  {
    TwiceFits(n, b, len);
    MulLe(n + b, W(len + 1), B);
    WMono(len + 2, room);
  }

  /** A sum divisible by the radix leaves a zero limb; above the window nothing is left. */
  lemma WindowShift(t: seq<Limb>, i: nat, sum: int, n: nat, b: nat, len: nat)
    requires i + len + 3 <= |t| && Val(t[i..]) == sum && Cong(sum, 0, B)
    requires b <= n < W(len) && sum < B * (n + b)
    ensures B * Val(t[i + 1..]) == sum && Val(t[i + 1..]) < n + b
    ensures t[i + len + 2] == 0
  {
    var rest := t[i + 1..];
    ValHead(t, i);
    ValModLow(t[i..]);
    CongUnique(t[i], 0, B);
    MulCancelLt(Val(rest), n + b, B);
    TwiceFits(n, b, len);
    ValHighZero(rest, len + 1);
    assert rest[len + 1] == t[i + len + 2];
  }

  /** The Montgomery product relation: r * R = a * b mod n, with R = 2^(biL * len). */
  ghost predicate IsMontProduct(r: int, a: int, b: int, n: int, len: nat)
    requires n > 0
  {
    0 <= r < n && Cong(r * W(len), a * b, n)
  }

  /** All rounds: T ends up as A's low limbs below a value D < N + B with D * R = A * B mod N. */
  method MontRounds(T: Mpi, a: seq<Limb>, b: seq<Limb>, n: seq<Limb>, mm: Limb)
    requires IsModulus(n, mm) && 0 < |b| <= |n| <= |a| && Val(b) <= Val(n)
    requires 2 * (|n| + 1) <= |T.p| && Val(T.p) == 0
    modifies T`p
    ensures |T.p| == |old(T.p)| && Val(T.p[|n|..]) < Val(n) + Val(b)
    ensures Cong(Val(T.p[|n|..]) * W(|n|), Val(a[..|n|]) * Val(b), Val(n))
  {
    var i := 0;
    assert T.p[0..] == T.p && a[..0] == [];
    while i < |n|
      invariant 0 <= i <= |n| && |T.p| == |old(T.p)|
      invariant Val(T.p[i..]) < Val(n) + Val(b)
      invariant Cong(Val(T.p[i..]) * W(i), Val(a[..i]) * Val(b), Val(n))
    {
      ghost var d := Val(T.p[i..]);
      var u1 := MontRound(T, i, a[i], b, n, mm);
      ValSnoc(a, i);
      RoundResidue(d, Val(T.p[i + 1..]), a[i], u1, Val(a[..i]), Val(a[..i + 1]), Val(b), Val(n), i);
      i := i + 1;
    }
  }

  lemma RoundResidue(d: int, d': int, u0: int, u1: int, a: int, a': int, b: int, n: int, i: nat)
    requires n > 0 && Cong(d * W(i), a * b, n)
    requires B * d' == d + u0 * b + u1 * n && a' == a + u0 * W(i)
    ensures Cong(d' * W(i + 1), a' * b, n)
  {
    calc {
      d' * W(i + 1);
      { MulAssoc(d', B, W(i)); }
      (d + u0 * b + u1 * n) * W(i);
      { MulDist(W(i), d + u0 * b, u1 * n); MulDist(W(i), d, u0 * b); }
      d * W(i) + (u0 * b) * W(i) + (u1 * n) * W(i);
      { MulAssoc(u1, n, W(i)); MulAssoc(u1, W(i), n); }
      d * W(i) + (u0 * b) * W(i) + (u1 * W(i)) * n;
    }
    CongIntro(d' * W(i + 1), d * W(i) + (u0 * b) * W(i), n, u1 * W(i));
    CongAdd(d * W(i), a * b, (u0 * b) * W(i), (u0 * b) * W(i), n);
    calc {
      a * b + (u0 * b) * W(i);
      { MulAssoc(u0, b, W(i)); MulAssoc(u0, W(i), b); }
      a * b + (u0 * W(i)) * b;
      { MulDist(b, a, u0 * W(i)); }
      a' * b;
    }
  }

  /**
   mpi_montmul: A = A * Y * R^-1 mod N. A and Y may be the same object.
   The workspace check only asks for n + 1 limbs; 2 * (n + 1) are needed.
   */
  method MontMul(A: Mpi, Y: Mpi, N: Mpi, mm: Limb, T: Mpi) returns (ok: bool)
    requires T != A && T != Y && T != N && A != N
    requires IsModulus(N.p, mm) && |Y.p| > 0 && Y.Mag() <= N.Mag()
    requires |A.p| > |N.p| && A.Mag() < W(|N.p|)
    requires |T.p| <= |N.p| || |T.p| >= 2 * (|N.p| + 1)
    modifies A`p, T`p
    ensures ok <==> |old(T.p)| > |N.p|
    ensures |A.p| == |old(A.p)| && |T.p| == |old(T.p)|
    ensures ok ==> IsMontProduct(A.Mag(), old(A.Mag()), old(Y.Mag()), N.Mag(), |N.p|)
    ensures !ok ==> A.p == old(A.p)
  {
    if |T.p| < |N.p| + 1 { return false; }
    ghost var a, y := A.Mag(), Y.Mag();
    T.p := seq(|T.p|, _ => 0);
    ValZeros(T.p);
    var n := |N.p|;
    var m := if |Y.p| < n then |Y.p| else n;
    ValBound(N.p);
    LowLimbs(Y.p, m, n);
    ValHighZero(A.p, n);
    MontRounds(T, A.p, Y.p[..m], N.p, mm);
    ghost var d := Val(T.p[n..]);
    TakeWindow(T.p, A.p, n, Val(N.p), y);
    A.p := T.p[n..2 * n + 1] + A.p[n + 1..];
    var c := CmpAbs(A, N);
    assert N.p[..n] == N.p;
    if c >= 0 {
      A.SubHlp(n, N.p);
      CongIntro(d, d - Val(N.p), Val(N.p), 1);
      CongMul(d, d - Val(N.p), W(n), W(n), Val(N.p));
    } else {
      DummyFits(T.p, A.p, n);
      T.SubHlp(n, A.p);
    }
    return true;
  }

  lemma LowLimbs(y: seq<Limb>, m: nat, n: nat)
    requires m == (if |y| < n then |y| else n) && Val(y) < W(n)
    ensures Val(y[..m]) == Val(y)
  {
    if |y| < n { assert y[..m] == y; } else { ValHighZero(y, n); }
  }

  /** The n + 1 limbs copied back hold all of D, the rest of A being zero. */
  lemma TakeWindow(t: seq<Limb>, a: seq<Limb>, n: nat, nv: int, y: int)
    requires 2 * n + 1 <= |t| && n < |a| && Val(t[n..]) < nv + y && y <= nv < W(n)
    requires forall i :: n <= i < |a| ==> a[i] == 0
    ensures Val(t[n..2 * n + 1] + a[n + 1..]) == Val(t[n..])
  {
    TwiceFits(nv, y, n);
    ValHighZero(t[n..], n + 1);
    assert t[n..][..n + 1] == t[n..2 * n + 1];
    var r := t[n..2 * n + 1] + a[n + 1..];
    ValTrailing(r, n + 1);
    assert r[..n + 1] == t[n..2 * n + 1];
  }

  /** The decoy subtraction does not borrow past T either. */
  lemma DummyFits(t: seq<Limb>, a: seq<Limb>, n: nat)
    requires n <= |t| && n <= |a| && Val(a) == Val(t[n..])
    ensures Val(a[..n]) <= Val(t)
  {
    ValSplit(t, n);
    ValSplit(a, n);
    MulLe(1, W(n), Val(t[n..]));
    MulLe(0, W(n), Val(a[n..]));
  }

  /** mpi_montred: a Montgomery product with 1. */
  method MontRed(A: Mpi, N: Mpi, mm: Limb, T: Mpi) returns (ok: bool)
    requires T != A && T != N && A != N
    requires IsModulus(N.p, mm)
    requires |A.p| > |N.p| && A.Mag() < W(|N.p|)
    requires |T.p| <= |N.p| || |T.p| >= 2 * (|N.p| + 1)
    modifies A`p, T`p
    ensures ok <==> |old(T.p)| > |N.p|
    ensures |A.p| == |old(A.p)| && |T.p| == |old(T.p)|
    ensures ok ==> IsMontProduct(A.Mag(), old(A.Mag()), 1, N.Mag(), |N.p|)
  {
    var u := SmallMpi(1);
    ok := MontMul(A, u, N, mm, T);
  }
}
