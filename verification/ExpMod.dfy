/** mbedtls_mpi_exp_mod: sliding-window exponentiation on Montgomery residues (HAC 14.85). */
module ExpMod {
  import opened Arith
  import opened Limbs
  import opened BigNum
  import opened Compare
  import opened AddSub
  import opened Bits
  import opened Shift
  import opened Division
  import opened Montgomery

  // ---------- Residues ----------

  /** Multiplication by a power of two can be cancelled modulo an odd number. */
  lemma {:induction false} CancelPow2(x: int, y: int, k: nat, n: int)
    requires n > 0 && n % 2 == 1 && Cong(x * Pow(2, k), y * Pow(2, k), n)
    ensures Cong(x, y, n)
  {
    if k > 0 {
      var p := Pow(2, k - 1);
      var h := (n + 1) / 2;
      HalfAgain(x, p, h, n);
      HalfAgain(y, p, h, n);
      CongMul(x * Pow(2, k), y * Pow(2, k), h, h, n);
      CancelPow2(x, y, k - 1, n);
    }
  }

  lemma HalfAgain(x: int, p: int, h: int, n: int)
    requires n > 0 && 2 * h == n + 1
    ensures Cong((x * (2 * p)) * h, x * p, n)
  {
    calc {
      (x * (2 * p)) * h;
      { MulAssoc(x, 2, p); MulAssoc(x, p, 2); MulAssoc(x * p, 2, h); }
      (x * p) * (2 * h);
      { MulDist(x * p, n, 1); }
      x * p + (x * p) * n;
    }
    CongIntro((x * (2 * p)) * h, x * p, n, x * p);
  }

  lemma CancelRadix(x: int, y: int, len: nat, n: int)
    requires n > 0 && n % 2 == 1 && Cong(x * W(len), y * W(len), n)
    ensures Cong(x, y, n)
  {
    Pow2Limbs(len, 0);
    CancelPow2(x, y, len * LimbBits(B), n);
  }

  /** A odd modulus with its factor and its limb count. */
  ghost predicate OddModulus(n: seq<Limb>, mm: Limb) {
    IsModulus(n, mm) && Val(n) % 2 == 1
  }

  /** x is the Montgomery residue v * R mod n. */
  ghost predicate IsResidue(x: int, v: int, n: int, len: nat)
    requires n > 0
  {
    0 <= x < n && Cong(x, v * W(len), n)
  }

  lemma ResidueProduct(r: int, x: int, u: int, y: int, v: int, n: int, len: nat)
    requires n > 0 && n % 2 == 1
    requires IsResidue(x, u, n, len) && IsResidue(y, v, n, len) && IsMontProduct(r, x, y, n, len)
    ensures IsResidue(r, u * v, n, len)
  {
    var w := W(len);
    CongMul(x, u * w, y, v * w, n);
    assert (u * w) * (v * w) == ((u * v) * w) * w by {
      MulSwap(u, w, v, w);
      MulAssoc(u * v, w, w);
    }
    CancelRadix(r, (u * v) * w, len, n);
  }

  // ---------- Powers held as residues ----------

  /** X holds the residue of a^e, in a buffer montmul can work on. */
  ghost predicate Holds(X: Mpi, N: Mpi, a: int, e: nat)
    reads X, N
  {
    N.Mag() > 0 && |X.p| > |N.p| && IsResidue(X.Mag(), Pow(a, e), N.Mag(), |N.p|)
  }

  ghost predicate Ready(N: Mpi, mm: Limb, T: Mpi)
    reads N, T
  {
    OddModulus(N.p, mm) && |T.p| >= 2 * (|N.p| + 1)
  }

  /** X = X * Y R^-1 mod N: exponents add. */
  method Times(X: Mpi, Y: Mpi, N: Mpi, mm: Limb, T: Mpi, ghost a: int, ghost e: nat, ghost f: nat)
    requires T != X && T != Y && T != N && X != N && Ready(N, mm, T)
    requires Holds(X, N, a, e) && Holds(Y, N, a, f)
    modifies X`p, T`p
    ensures Ready(N, mm, T) && |X.p| == |old(X.p)| && Holds(X, N, a, e + f)
  {
    ghost var x, y := X.Mag(), Y.Mag();
    ValBound(N.p);
    var ok := MontMul(X, Y, N, mm, T);
    ResidueProduct(X.Mag(), x, Pow(a, e), y, Pow(a, f), N.Mag(), |N.p|);
    PowAdd(a, e, f);
  }

  /** X = X^(2^k), by k squarings. */
  method SquareTimes(X: Mpi, N: Mpi, mm: Limb, T: Mpi, k: nat, ghost a: int, ghost e: nat)
    requires T != X && T != N && X != N && Ready(N, mm, T) && Holds(X, N, a, e)
    modifies X`p, T`p
    ensures Ready(N, mm, T) && |X.p| == |old(X.p)|
    ensures Holds(X, N, a, e * Pow(2, k))
  {
    var i := 0;
    while i < k
      invariant 0 <= i <= k && Ready(N, mm, T) && |X.p| == |old(X.p)|
      invariant Holds(X, N, a, e * Pow(2, i))
    {
      Times(X, X, N, mm, T, a, e * Pow(2, i), e * Pow(2, i));
      MulAssoc(e, 2, Pow(2, i));
      MulAssoc(2, e, Pow(2, i));
      i := i + 1;
    }
  }

  // ---------- The window table ----------

  ghost predicate AllDistinct(V: seq<Mpi>) {
    forall i, j :: 0 <= i < j < |V| ==> V[i] != V[j]
  }

  /** V[1] and the odd half V[2^(w-1)..2^w) hold the powers with their index as exponent. */
  ghost predicate WindowReady(V: seq<Mpi>, N: Mpi, a: int, w: nat)
    reads V, N
  {
    && w > 0 && |V| == Pow(2, w) && |V| > 1 && Holds(V[1], N, a, 1)
    && forall k :: Pow(2, w - 1) <= k < |V| ==> Holds(V[k], N, a, k)
  }

  method FillFrom(Y: Mpi, X: Mpi, N: Mpi, ghost a: int, ghost e: nat)
    requires X != Y && Y != N && X.Valid() && Holds(X, N, a, e)
    modifies Y
    ensures Y.Valid() && Holds(Y, N, a, e)
  {
    Y.Grow(|N.p| + 1);
    Y.Copy(X);
  }

  method BuildWindow(V: seq<Mpi>, N: Mpi, mm: Limb, T: Mpi, w: nat, ghost a: int)
    requires w > 1 && |V| == Pow(2, w) && AllDistinct(V) && N !in V && T !in V && T != N
    requires |V| > 1 && Ready(N, mm, T) && V[1].Valid() && Holds(V[1], N, a, 1)
    modifies V, T`p
    ensures Ready(N, mm, T) && WindowReady(V, N, a, w)
  {
    var j := Pow(2, w - 1);
    PowMono(2, 1, w - 1);
    FillFrom(V[j], V[1], N, a, 1);
    SquareTimes(V[j], N, mm, T, w - 1, a, 1);
    var i := j + 1;
    while i < |V|
      invariant j < i <= |V| && Ready(N, mm, T) && Holds(V[1], N, a, 1)
      invariant forall k :: j <= k < i ==> Holds(V[k], N, a, k) && V[k].Valid()
    {
      NextPower(V[i], V[i - 1], V[1], N, mm, T, a, i - 1);
      i := i + 1;
    }
  }

  /** W[i] = W[i - 1] * W[1]. */
  method NextPower(Y: Mpi, X: Mpi, V1: Mpi, N: Mpi, mm: Limb, T: Mpi, ghost a: int, ghost e: nat)
    requires X != Y && V1 != Y && Y != N && T != N && T != X && T != Y && T != V1
    requires Ready(N, mm, T) && X.Valid() && Holds(X, N, a, e) && Holds(V1, N, a, 1)
    modifies Y, T`p
    ensures Ready(N, mm, T) && Y.Valid() && Holds(Y, N, a, e + 1)
  {
    FillFrom(Y, X, N, a, e);
    Times(Y, V1, N, mm, T, a, e, 1);
  }

  // ---------- Reading the exponent from the top ----------

  /** The value without its lowest i limbs and j bits. */
  ghost function Prefix(p: seq<Limb>, i: nat, j: nat): nat {
    MulLe(0, i, LimbBits(B));
    Val(p) / Pow(2, i * LimbBits(B) + j)
  }

  lemma NextLimb(p: seq<Limb>, i: nat)
    requires i > 0
    ensures Prefix(p, i, 0) == Prefix(p, i - 1, LimbBits(B))
  {
    MulDist(LimbBits(B), i, -1);
  }

  /** Bit j of limb i is bit i*biL + j of the value: shifting it in doubles the prefix. */
  lemma NextBit(p: seq<Limb>, i: nat, j: nat)
    requires i < |p| && j < LimbBits(B)
    ensures Prefix(p, i, j) == 2 * Prefix(p, i, j + 1) + (p[i] / Pow(2, j)) % 2
  {
    TopQuotient(p, i, j);
    LimbBit(p, i, j);
    HalvePrefix(Val(p), Pow(2, i * LimbBits(B) + j));
  }

  lemma TopQuotient(p: seq<Limb>, i: nat, j: nat)
    requires i < |p|
    ensures Val(p) / Pow(2, i * LimbBits(B) + j) == Val(p[i..]) / Pow(2, j)
  {
    ValSplit(p, i);
    ValBound(p[..i]);
    Pow2Limbs(i, j);
    QuotientAbove(Val(p), W(i), Val(p[..i]), Val(p[i..]), Pow(2, j));
  }

  lemma LimbBit(p: seq<Limb>, i: nat, j: nat)
    requires i < |p| && j < LimbBits(B)
    ensures (Val(p[i..]) / Pow(2, j)) % 2 == (p[i] / Pow(2, j)) % 2
  {
    ValHead(p, i);
    var m, h := Pow(2, j), Pow(2, LimbBits(B) - j - 1);
    HalfSplit(j, m, h);
    BitAbove(p[i], Val(p[i + 1..]), m, h, B, Val(p[i..]));
  }

  lemma HalfSplit(j: nat, m: int, h: int)
    requires j < LimbBits(B) && m == Pow(2, j) && h == Pow(2, LimbBits(B) - j - 1)
    ensures B == (2 * h) * m
  {
    RadixSplit(j);
    assert Pow(2, LimbBits(B) - j) == 2 * h;
  }

  lemma HalvePrefix(v: int, m: int)
    requires m > 0
    ensures v / m == 2 * (v / (2 * m)) + (v / m) % 2
  {
    DivDiv(v, m, 2);
    DivModFacts(v / m, 2);
  }

  lemma QuotientAbove(v: int, w: int, lo: int, t: int, m: int)
    requires v == lo + w * t && 0 <= lo < w && m > 0
    ensures w * m > 0 && v / (w * m) == t / m
  {
    QuotientIs(v, w, t, lo);
    DivDiv(v, w, m);
  }

  /** What lies above a limb does not change its bits. */
  lemma BitAbove(x: int, rest: int, m: int, h: int, b: int, t: int)
    requires m > 0 && b == (2 * h) * m && t == x + b * rest
    ensures (t / m) % 2 == (x / m) % 2
  {
    var q, r, c := x / m, x % m, h * rest;
    DivModFacts(x, m);
    assert b * rest == (2 * c) * m by {
      MulAssoc(2 * h, m, rest);
      MulAssoc(2 * h, rest, m);
      MulAssoc(2, h, rest);
    }
    MulDist(m, q, 2 * c);
    DivModUnique(t, m, q + 2 * c, r);
    DivModFacts(q, 2);
    DivModUnique(q + 2 * c, 2, q / 2 + c, q % 2);
  }

  // ---------- The scan ----------

  /**
   Where the scan stands: `prefix` of the exponent has been read; X holds a^done, and the
   nbits read since are the top bits of wbits. State 0: nothing but zeros so far; 1: between
   windows; 2: inside a window, which starts with a one.
   */
  ghost predicate Scan(prefix: nat, done: nat, w: nat, nbits: nat, wbits: nat, state: nat) {
    && state <= 2 && nbits < w
    && (state == 0 ==> prefix == 0)
    && (state < 2 <==> nbits == 0)
    && exists x: nat :: Window(x, w, nbits, wbits) && prefix == done * Pow(2, nbits) + x
  }

  /** x, of n bits and starting with a one, moved to the top of a w-bit word. */
  ghost predicate Window(x: nat, w: nat, n: nat, wbits: nat)
    requires n <= w
  {
    wbits == x * Pow(2, w - n) && x < Pow(2, n) && (n > 0 ==> Pow(2, n - 1) <= x)
  }

  /** A zero outside a window doubles the prefix and the exponent alike. */
  lemma ScanSkip(prefix: nat, done: nat, w: nat, nbits: nat, wbits: nat, state: nat)
    requires Scan(prefix, done, w, nbits, wbits, state) && state < 2
    ensures prefix == done && wbits == 0
    ensures state == 0 ==> Scan(0, done, w, 0, 0, 0)
    ensures state == 1 ==> Scan(2 * prefix, 2 * done, w, 0, 0, 1)
  {
    var x: nat :| Window(x, w, nbits, wbits) && prefix == done * Pow(2, nbits) + x;
    assert Window(0, w, 0, 0);
    assert 2 * prefix == (2 * done) * Pow(2, 0) + 0;
    assert prefix == done * Pow(2, 0) + 0;
  }

  /** A bit inside a window, or the one that opens it, goes below the bits already there. */
  lemma ScanShift(prefix: nat, done: nat, w: nat, nbits: nat, wbits: nat, state: nat, bit: nat) returns (x: nat)
    requires Scan(prefix, done, w, nbits, wbits, state) && bit <= 1 && (state < 2 ==> bit == 1)
    ensures Window(x, w, nbits + 1, wbits + bit * Pow(2, w - nbits - 1))
    ensures 2 * prefix + bit == done * Pow(2, nbits + 1) + x
    ensures nbits + 1 < w ==> Scan(2 * prefix + bit, done, w, nbits + 1, wbits + bit * Pow(2, w - nbits - 1), 2)
  {
    var y: nat :| Window(y, w, nbits, wbits) && prefix == done * Pow(2, nbits) + y;
    x := 2 * y + bit;
    WindowPush(y, w, nbits, wbits, bit);
    DoublePrefix(prefix, done, Pow(2, nbits), y);
  }

  lemma WindowPush(y: nat, w: nat, n: nat, wbits: nat, bit: nat)
    requires n < w && Window(y, w, n, wbits) && bit <= 1 && (n == 0 ==> bit == 1)
    ensures Window(2 * y + bit, w, n + 1, wbits + bit * Pow(2, w - n - 1))
  {
    var m := Pow(2, w - n - 1);
    MulAssoc(y, 2, m);
    MulDist(m, 2 * y, bit);
  }

  lemma DoublePrefix(prefix: int, done: int, m: int, y: int)
    requires prefix == done * m + y
    ensures 2 * prefix == done * (2 * m) + 2 * y
  {
    MulAssoc(2, done, m);
    MulAssoc(done, 2, m);
  }

  lemma ScanFull(prefix: nat, w: nat)
    requires w > 0
    ensures Scan(prefix, prefix, w, 0, 0, 1)
  {
    assert Window(0, w, 0, 0);
    assert prefix == prefix * Pow(2, 0) + 0;
  }

  /** X = X^(2^w) * V[wbits] for a full window. */
  method CloseWindow(X: Mpi, V: seq<Mpi>, N: Mpi, mm: Limb, T: Mpi, w: nat, wbits: nat, ghost a: int, ghost done: nat,
    ghost x: nat)
    requires X !in V && T !in V && T != X && T != N && X != N
    requires Ready(N, mm, T) && WindowReady(V, N, a, w)
    requires Window(x, w, w, wbits) && Holds(X, N, a, done)
    modifies X`p, T`p
    ensures Ready(N, mm, T) && |X.p| == |old(X.p)| && Holds(X, N, a, done * Pow(2, w) + x)
  {
    SquareTimes(X, N, mm, T, w, a, done);
    Times(X, V[wbits], N, mm, T, a, done * Pow(2, w), x);
  }

  /** One exponent bit. */
  method ScanBit(X: Mpi, V: seq<Mpi>, N: Mpi, mm: Limb, T: Mpi, w: nat, ei: nat, nbits: nat, wbits: nat, state: nat,
                 ghost a: int, ghost prefix: nat, ghost done: nat)
    returns (nbits': nat, wbits': nat, state': nat, ghost done': nat)
    requires X !in V && T !in V && T != X && T != N && X != N
    requires Ready(N, mm, T) && WindowReady(V, N, a, w) && ei <= 1
    requires Scan(prefix, done, w, nbits, wbits, state) && Holds(X, N, a, done)
    modifies X`p, T`p
    ensures Ready(N, mm, T) && |X.p| == |old(X.p)|
    ensures Scan(2 * prefix + ei, done', w, nbits', wbits', state') && Holds(X, N, a, done')
  {
    nbits', wbits', state', done' := nbits, wbits, state, done;
    if ei == 0 && state < 2 {
      ScanSkip(prefix, done, w, nbits, wbits, state);
      if state == 1 {
        Times(X, X, N, mm, T, a, done, done);
        done' := 2 * done;
      }
      return;
    }
    state', nbits' := 2, nbits + 1;
    wbits' := wbits + ei * Pow(2, w - nbits');
    ghost var x := ScanShift(prefix, done, w, nbits, wbits, state, ei);
    if nbits' == w {
      CloseWindow(X, V, N, mm, T, w, wbits', a, done, x);
      done' := 2 * prefix + ei;
      ScanFull(done', w);
      state', nbits', wbits' := 1, 0, 0;
    }
  }

  /** The whole exponent, limb by limb and bit by bit from the top. */
  method ScanExponent(X: Mpi, V: seq<Mpi>, E: Mpi, N: Mpi, mm: Limb, T: Mpi, w: nat, ghost a: int)
    returns (nbits: nat, wbits: nat, ghost done: nat, ghost state: nat)
    requires X !in V && T !in V && T != X && T != N && X != N && E != X && E != T
    requires Ready(N, mm, T) && WindowReady(V, N, a, w) && Holds(X, N, a, 0)
    modifies X`p, T`p
    ensures Ready(N, mm, T) && |X.p| == |old(X.p)|
    ensures Scan(E.Mag(), done, w, nbits, wbits, state) && Holds(X, N, a, done)
  {
    var l := LimbBits(B);
    var nblimbs, bufsize := |E.p|, 0;
    var st := 0;
    nbits, wbits, done := 0, 0, 0;
    ghost var prefix := 0;
    NothingRead(E.p, w);
    while nblimbs > 0 || bufsize > 0
      invariant 0 <= nblimbs <= |E.p| && 0 <= bufsize <= l && (nblimbs == |E.p| ==> bufsize == 0)
      invariant prefix == Prefix(E.p, nblimbs, bufsize)
      invariant Ready(N, mm, T) && |X.p| == |old(X.p)|
      invariant Scan(prefix, done, w, nbits, wbits, st) && Holds(X, N, a, done)
      decreases nblimbs, bufsize
    {
      if bufsize == 0 {
        NextLimb(E.p, nblimbs);
        nblimbs, bufsize := nblimbs - 1, l;
      }
      bufsize := bufsize - 1;
      var ei := (E.p[nblimbs] / Pow(2, bufsize)) % 2;
      NextBit(E.p, nblimbs, bufsize);
      nbits, wbits, st, done := ScanBit(X, V, N, mm, T, w, ei, nbits, wbits, st, a, prefix, done);
      prefix := 2 * prefix + ei;
    }
    DivOne(E.Mag());
    state := st;
  }

  lemma DivOne(v: int)
    ensures v / Pow(2, 0) == v
  {
  }

  lemma NothingRead(p: seq<Limb>, w: nat)
    requires w > 0
    ensures Prefix(p, |p|, 0) == 0
    ensures Scan(0, 0, w, 0, 0, 0)
  {
    Pow2Limbs(|p|, 0);
    ValBound(p);
    ModSmall(Val(p), W(|p|));
    assert Window(0, w, 0, 0);
    assert 0 == 0 * Pow(2, 0) + 0;
  }

  // ---------- The bits left over ----------

  lemma DivCancel(x: int, c: int, d: int)
    requires c > 0 && d > 0
    ensures c * d > 0 && (x * c) / (c * d) == x / d
  {
    QuotientIs(x * c, c, x, 0);
    DivDiv(x * c, c, d);
  }

  /** After i doublings, bit w of the word is bit n-i-1 of the window. */
  lemma LeftoverBit(x: nat, w: nat, n: nat, wbits: nat, i: nat)
    requires i < n <= w && Window(x, w, n, wbits)
    ensures x / Pow(2, n - i - 1) == 2 * (x / Pow(2, n - i)) + ((wbits * Pow(2, i + 1)) / Pow(2, w)) % 2
  {
    var c, d := Pow(2, w - n + i + 1), Pow(2, n - i - 1);
    assert wbits * Pow(2, i + 1) == x * c by {
      PowAdd(2, w - n, i + 1);
      MulAssoc(x, Pow(2, w - n), Pow(2, i + 1));
    }
    PowAdd(2, w - n + i + 1, n - i - 1);
    DivCancel(x, c, d);
    HalvePrefix(x, d);
  }

  method FinishWindow(X: Mpi, V: seq<Mpi>, N: Mpi, mm: Limb, T: Mpi, w: nat, nbits: nat, word: nat,
                      ghost a: int, ghost done: nat, ghost x: nat)
    requires X !in V && T !in V && T != X && T != N && X != N
    requires Ready(N, mm, T) && WindowReady(V, N, a, w)
    requires nbits < w && Window(x, w, nbits, word) && Holds(X, N, a, done)
    modifies X`p, T`p
    ensures Ready(N, mm, T) && |X.p| == |old(X.p)| && Holds(X, N, a, done * Pow(2, nbits) + x)
  {
    var wbits, i := word, 0;
    ModSmall(x, Pow(2, nbits));
    while i < nbits
      invariant 0 <= i <= nbits && Ready(N, mm, T) && |X.p| == |old(X.p)|
      invariant wbits == word * Pow(2, i)
      invariant Holds(X, N, a, Lead(done, x, nbits, i))
    {
      wbits := 2 * wbits;
      var bit := (wbits / Pow(2, w)) % 2;
      LeadStep(done, x, w, nbits, word, i);
      LeftoverStep(X, V, N, mm, T, bit, a, Lead(done, x, nbits, i));
      i := i + 1;
    }
    DivOne(x);
  }

  /** The exponent done so far when i of the window's n bits have been used. */
  ghost function Lead(done: nat, x: nat, n: nat, i: nat): nat
    requires i <= n
  {
    MulLe(0, done, Pow(2, i));
    assert x / Pow(2, n - i) >= 0 by { DivNonNeg(x, Pow(2, n - i)); }
    done * Pow(2, i) + x / Pow(2, n - i)
  }

  lemma DivNonNeg(x: int, m: int)
    requires x >= 0 && m > 0
    ensures x / m >= 0
  {
    DivModFacts(x, m);
    if x / m < 0 { MulLe(x / m, -1, m); }
  }

  lemma LeadStep(done: nat, x: nat, w: nat, n: nat, word: nat, i: nat)
    requires i < n <= w && Window(x, w, n, word)
    ensures 2 * (word * Pow(2, i)) == word * Pow(2, i + 1)
    ensures Lead(done, x, n, i + 1) == 2 * Lead(done, x, n, i) + ((word * Pow(2, i + 1)) / Pow(2, w)) % 2
  {
    LeftoverBit(x, w, n, word, i);
    DoublePrefix(done * Pow(2, i), done, Pow(2, i), 0);
    DoublePrefix(word * Pow(2, i), word, Pow(2, i), 0);
  }

  method LeftoverStep(X: Mpi, V: seq<Mpi>, N: Mpi, mm: Limb, T: Mpi, bit: int, ghost a: int, ghost e: nat)
    requires X !in V && T !in V && T != X && T != N && X != N && 0 <= bit <= 1
    requires Ready(N, mm, T) && |V| > 1 && Holds(V[1], N, a, 1) && Holds(X, N, a, e)
    modifies X`p, T`p
    ensures Ready(N, mm, T) && |X.p| == |old(X.p)| && Holds(X, N, a, 2 * e + bit)
  {
    Times(X, X, N, mm, T, a, e, e);
    if bit != 0 { Times(X, V[1], N, mm, T, a, 2 * e, 1); }
  }

  // ---------- mbedtls_mpi_exp_mod ----------

  /** MBEDTLS_MPI_WINDOW_SIZE: any value from 1 to 6 may be configured. */
  type WindowSize = w: nat | 1 <= w <= 6 witness 6
  const WINDOW_SIZE: WindowSize

  function WindowFor(bits: nat): (w: nat)
    ensures 1 <= w <= 6
  {
    var w := if bits > 671 then 6 else if bits > 239 then 5 else if bits > 79 then 4 else if bits > 23 then 3 else 1;
    if w > WINDOW_SIZE then WINDOW_SIZE else w
  }

  /** The cached helper: R^2 mod N. */
  ghost predicate IsRR(C: Mpi, N: Mpi)
    reads C, N
  {
    C.Valid() && C.p != [] && N.Mag() > 0 && C.Mag() == (W(|N.p|) * W(|N.p|)) % N.Mag() && C.Value() == C.Mag()
  }

  /** R^2 mod N: from the cache if it is filled, else computed and put there. */
  method PrepareRR(C: Mpi?, N: Mpi) returns (RR: Mpi)
    requires N.Valid() && N.Value() > 0 && C != N
    requires C != null && C.p != [] ==> IsRR(C, N)
    modifies C
    ensures fresh(RR) && IsRR(RR, N) && (C != null ==> IsRR(C, N))
  {
    RR := new Mpi();
    if C == null || C.p == [] {
      RR.Lset(1);
      ghost var n := |N.p|;
      Pow2Limbs(2 * n, 0);
      PowAdd(B, n, n);
      ShiftL(RR, |N.p| * 2 * LimbBits(B));
      var ret := ModMpi(RR, RR, N);
      if C != null { C.s, C.p := RR.s, RR.p; }
    } else {
      RR.s, RR.p := C.s, C.p;
    }
  }

  /** W[1] = A * R mod N, from A reduced below N. */
  method BaseResidue(V1: Mpi, A: Mpi, RR: Mpi, N: Mpi, mm: Limb, T: Mpi)
    requires V1 != A && V1 != RR && V1 != N && T != V1 && T != A && T != RR && T != N
    requires A.Valid() && A.s == 1 && A.p != [] && N.Valid() && N.s == 1 && Ready(N, mm, T) && IsRR(RR, N)
    modifies V1, T`p
    ensures Ready(N, mm, T) && V1.Valid() && Holds(V1, N, A.Mag(), 1)
  {
    V1.Grow(|N.p| + 1);
    var c := CmpMpi(A, N);
    if c >= 0 {
      var ret := ModMpi(V1, A, N);
    } else {
      V1.Copy(A);
      ModSmall(A.Mag(), N.Mag());
    }

    ghost var v := V1.Mag();
    DivModFacts(A.Mag(), N.Mag());
    assert v == A.Mag() % N.Mag();
    ValBound(N.p);
    DivModFacts(W(|N.p|) * W(|N.p|), N.Mag());
    var ok := MontMul(V1, RR, N, mm, T);
    EnterResidue(V1.Mag(), v, A.Mag(), RR.Mag(), N.Mag(), |N.p|);
  }

  lemma EnterResidue(r: int, v: int, a: int, rr: int, n: int, len: nat)
    requires n > 0 && n % 2 == 1 && v == a % n && rr == (W(len) * W(len)) % n
    requires IsMontProduct(r, v, rr, n, len)
    ensures IsResidue(r, Pow(a, 1), n, len)
  {
    CongMod(a, n);
    CongMod(W(len) * W(len), n);
    CongMul(v, a, rr, W(len) * W(len), n);
    MulAssoc(a, W(len), W(len));
    CancelRadix(r, a * W(len), len, n);
    assert Pow(a, 1) == a * Pow(a, 0);
  }

  /** X = R^2 * R^-1 = R mod N, the residue of a^0. */
  method UnitResidue(X: Mpi, RR: Mpi, N: Mpi, mm: Limb, T: Mpi, ghost a: int)
    requires X != RR && X != N && T != X && T != RR && T != N
    requires |X.p| > |N.p| && Ready(N, mm, T) && IsRR(RR, N)
    modifies X, T`p
    ensures Ready(N, mm, T) && X.Valid() && Holds(X, N, a, 0) && X.s == RR.s
  {
    X.Copy(RR);
    ValBound(N.p);
    ghost var w := W(|N.p|);
    DivModFacts(w * w, N.Mag());
    ghost var rr := X.Mag();
    var ok := MontRed(X, N, mm, T);
    CongMod(w * w, N.Mag());
    CancelRadix(X.Mag(), w, |N.p|, N.Mag());
  }

  /** The result promised for a base of sign s and magnitude m. */
  function PowerMod(s: int, m: nat, e: nat, n: int): int
    requires n > 0
  {
    var r := Pow(m, e) % n;
    if s == -1 && e % 2 == 1 then n - r else r
  }

  /**
   Always congruent to A^E, and the canonical residue exactly when no negative base with an
   odd exponent has a power divisible by N: there the code answers N instead of 0.
   */
  lemma PowerModMeaning(s: int, m: nat, e: nat, n: int)
    requires n > 0 && (s == 1 || s == -1)
    ensures Cong(PowerMod(s, m, e, n), Pow(s * m, e), n)
    ensures PowerMod(s, m, e, n) == Pow(s * m, e) % n <==> !(s == -1 && e % 2 == 1 && Pow(m, e) % n == 0)
  {
    var p := Pow(m, e);
    var r := p % n;
    PowMulBase(s, m, e);
    SignPow(s, e);
    CongMod(p, n);
    if s == -1 && e % 2 == 1 {
      NegMul(1, p);
      CongNeg(r, p, n);
      CongIntro(n - r, -r, n, 1);
      DivModFacts(p, n);
      CongMod(-p, n);
      if r != 0 {
        DivModFacts(-p, n);
        CongUnique(n - r, (-p) % n, n);
      }
    }
  }

  /** For a base of value 0 or more the sign and the exponent decide: only a zero of sign -1 is answered by N. */
  lemma CanonicalForNonNegative(s: int, m: nat, e: nat, n: int)
    requires n > 1 && (s == 1 || (s == -1 && m == 0))
    ensures PowerMod(s, m, e, n) == Pow(s * m, e) % n <==> !(s == -1 && e % 2 == 1)
  {
    PowerModMeaning(s, m, e, n);
    if m == 0 && e > 0 {
      assert Pow(0, e) == 0 * Pow(0, e - 1) == 0;
      ModSmall(0, n);
    }
  }

  /** A zero with sign -1, which reading "-0" leaves, is such a base: it gives N for an odd exponent. */
  lemma NegativeZero(n: int)
    requires n > 0
    ensures PowerMod(-1, 0, 1, n) == n && Pow(0, 1) % n == 0
  {
    ModSmall(0, n);
    assert Pow(0, 1) == 0;
  }

  lemma {:induction false} SignPow(s: int, e: nat)
    requires s == 1 || s == -1
    ensures Pow(s, e) == (if s == -1 && e % 2 == 1 then -1 else 1)
  {
    if e > 0 { SignPow(s, e - 1); }
  }

  /** X = A^E mod N. X may be A; C caches R^2 mod N between calls with the same N. */
  method ExpMod(X: Mpi, A: Mpi, E: Mpi, N: Mpi, C: Mpi?) returns (ret: Status)
    requires A.Valid() && E.Valid() && N.Valid() && A.p != [] && N.p != []
    requires X != E && X != N && C != X && C != A && C != E && C != N
    requires C != null && C.p != [] && N.Value() > 0 ==> IsRR(C, N)
    modifies X, C
    ensures ret == (if N.Value() < 0 || N.Mag() % 2 == 0 || E.Value() < 0 then BadInput else Ok)
    ensures ret == Ok ==> X.Valid() && X.p != []
    ensures ret == Ok ==> X.Value() == PowerMod(old(A.s), old(A.Mag()), E.Mag(), N.Mag())
    ensures ret == Ok && C != null ==> IsRR(C, N)
    ensures ret != Ok ==> X.p == old(X.p) && X.s == old(X.s)
    ensures ret != Ok && C != null ==> C.p == old(C.p) && C.s == old(C.s)
  {
    var c := CmpInt(N, 0);
    LowLimbParity(N.p);
    if c < 0 || N.p[0] % 2 == 0 { return BadInput; }
    c := CmpInt(E, 0);
    if c < 0 { return BadInput; }
    var mm := MontgInit(N.p[0]);
    assert OddModulus(N.p, mm);
    X.Grow(|N.p| + 1);
    var neg := A.s == -1;
    var Apos := Positive(A);
    PowerLoop(X, Apos, E, N, C, mm);
    LowLimbParity(E.p);
    if neg && E.p != [] && E.p[0] % 2 != 0 {
      X.s := -1;
      AddMpi(X, N, X);
    }
    return Ok;
  }

  /** A itself, or a positive copy of a negative A. */
  method Positive(A: Mpi) returns (P: Mpi)
    requires A.Valid() && A.p != []
    ensures P == A || fresh(P)
    ensures P.Valid() && P.s == 1 && P.p != [] && P.Mag() == A.Mag()
  {
    P := A;
    if A.s == -1 {
      P := new Mpi();
      P.Copy(A);
      P.s := 1;
    }
  }

  lemma LowLimbParity(p: seq<Limb>)
    ensures Val(p) % 2 == (if p == [] then 0 else p[0] % 2)
  {
    if p != [] {
      RadixFacts();
      var h := B / 2;
      MulAssoc(2, h, Val(p[1..]));
      ParityOf(Val(p), p[0], h * Val(p[1..]));
    }
  }

  lemma ParityOf(v: int, x: int, k: int)
    requires v == x + 2 * k
    ensures v % 2 == x % 2
  {
  }

  method NewTable(n: nat) returns (V: seq<Mpi>)
    ensures |V| == n && AllDistinct(V)
    ensures forall i :: 0 <= i < n ==> fresh(V[i]) && V[i].Valid()
  {
    V := [];
    while |V| < n
      invariant |V| <= n && AllDistinct(V)
      invariant forall i :: 0 <= i < |V| ==> fresh(V[i]) && V[i].Valid()
    {
      var v := new Mpi();
      V := V + [v];
    }
  }

  /** X = |A|^E mod N, for an odd N > 0 with its Montgomery factor. */
  method PowerLoop(X: Mpi, A: Mpi, E: Mpi, N: Mpi, C: Mpi?, mm: Limb)
    requires A.Valid() && A.s == 1 && A.p != [] && N.Valid() && N.s == 1 && OddModulus(N.p, mm) && |X.p| > |N.p|
    requires X != E && X != N && C != X && C != A && C != E && C != N
    requires C != null && C.p != [] ==> IsRR(C, N)
    modifies X, C
    ensures X.Valid() && |X.p| > |N.p| && (C != null ==> IsRR(C, N))
    ensures X.Value() == X.Mag() == Pow(old(A.Mag()), E.Mag()) % N.Mag()
  {
    ghost var a := A.Mag();
    var bits := BitLen(E);
    var w := WindowFor(bits);
    var T := new Mpi();
    T.Grow(2 * (|N.p| + 1));
    var RR := PrepareRR(C, N);
    PowMono(2, 1, w);
    var V := NewTable(Pow(2, w));
    BaseResidue(V[1], A, RR, N, mm, T);
    UnitResidue(X, RR, N, mm, T, a);
    WindowPower(X, V, E, N, mm, T, w, a);
    if X.s != 1 { ZeroRR(N.Mag(), |N.p|); }
  }

  method WindowPower(X: Mpi, V: seq<Mpi>, E: Mpi, N: Mpi, mm: Limb, T: Mpi, w: nat, ghost a: int)
    requires X !in V && T !in V && N !in V && E !in V && T != X && T != N && X != N && E != X && E != T
    requires 1 <= w && |V| == Pow(2, w) && |V| > 1 && AllDistinct(V) && V[1].Valid()
    requires Ready(N, mm, T) && Holds(V[1], N, a, 1) && Holds(X, N, a, 0)
    modifies X`p, T`p, V
    ensures |X.p| == |old(X.p)| && X.s == old(X.s) && X.Mag() == Pow(a, E.Mag()) % N.Mag() && X.Mag() < N.Mag()
  {
    if w > 1 { BuildWindow(V, N, mm, T, w, a); }
    ScanPower(X, V, E, N, mm, T, w, a);
    ghost var x := X.Mag();
    ValBound(N.p);
    var ok := MontRed(X, N, mm, T);
    LeaveResidue(X.Mag(), x, Pow(a, E.Mag()), N.Mag(), |N.p|);
  }

  method ScanPower(X: Mpi, V: seq<Mpi>, E: Mpi, N: Mpi, mm: Limb, T: Mpi, w: nat, ghost a: int)
    requires X !in V && T !in V && T != X && T != N && X != N && E != X && E != T
    requires Ready(N, mm, T) && WindowReady(V, N, a, w) && Holds(X, N, a, 0)
    modifies X`p, T`p
    ensures Ready(N, mm, T) && |X.p| == |old(X.p)| && Holds(X, N, a, E.Mag())
  {
    var nbits, wbits, done, state := ScanExponent(X, V, E, N, mm, T, w, a);
    ghost var x: nat :| Window(x, w, nbits, wbits) && E.Mag() == done * Pow(2, nbits) + x;
    FinishWindow(X, V, N, mm, T, w, nbits, wbits, a, done, x);
  }

  lemma LeaveResidue(r: int, x: int, v: int, n: int, len: nat)
    requires n > 0 && n % 2 == 1 && IsResidue(x, v, n, len) && IsMontProduct(r, x, 1, n, len)
    ensures r == v % n
  {
    CancelRadix(r, v, len, n);
    CongMod(v, n);
    DivModFacts(v, n);
    CongUnique(r, v % n, n);
  }

  /** R^2 is invertible modulo an odd N, so it vanishes only modulo 1. */
  lemma ZeroRR(n: int, len: nat)
    requires n > 0 && n % 2 == 1 && (W(len) * W(len)) % n == 0
    ensures n == 1
  {
    ModSmall(0, n);
    CancelRadix(W(len), 0, len, n);
    assert W(len) == 1 * W(len);
    CancelRadix(1, 0, len, n);
    if n > 1 { ModSmall(1, n); }
  }
}
