/** mpi_miller_rabin (HAC 4.24). The random number generator is the stream of its answers. */
module MillerRabin {
  import opened Arith
  import opened Primes
  import opened Limbs
  import opened BigNum
  import opened Compare
  import opened AddSub
  import opened Multiply
  import opened Bits
  import opened Shift
  import opened Division
  import opened ExpMod

  // ---------- Strong probable primes ----------

  /** a^(r * 2^i) mod x. */
  ghost function Stage(a: nat, r: nat, i: nat, x: int): (v: int)
    requires x > 0
    ensures 0 <= v < x
  {
    MulLe(0, r, Pow(2, i));
    DivModFacts(Pow(a, r * Pow(2, i)), x);
    Pow(a, r * Pow(2, i)) % x
  }

  /** x, with x - 1 = r * 2^s, behaves like a prime to the base a. */
  ghost predicate StrongProbablePrime(a: nat, r: nat, s: nat, x: int)
    requires x > 0
  {
    Stage(a, r, 0, x) == 1 || exists i :: 0 <= i < s && Stage(a, r, i, x) == x - 1
  }

  lemma StageSquare(a: nat, r: nat, i: nat, x: int)
    requires x > 0
    ensures var v := Stage(a, r, i, x); Stage(a, r, i + 1, x) == (v * v) % x
  {
    MulLe(0, r, Pow(2, i));
    var e := r * Pow(2, i);
    var v := Stage(a, r, i, x);
    assert r * Pow(2, i + 1) == e + e by { MulAssoc(r, 2, Pow(2, i)); MulAssoc(2, r, Pow(2, i)); }
    CongMod(Pow(a, e), x);
    CongMul(v, Pow(a, e), v, Pow(a, e), x);
    PowAdd(a, e, e);
  }

  /** Once at one, always at one. */
  lemma {:induction false} StageOne(a: nat, r: nat, i: nat, j: nat, x: int)
    requires x > 1 && i <= j && Stage(a, r, i, x) == 1
    ensures Stage(a, r, j, x) == 1
    decreases j - i
  {
    if i < j {
      StageSquare(a, r, i, x);
      ModSmall(1, x);
      StageOne(a, r, i + 1, j, x);
    }
  }

  /** Every prime is a strong probable prime to every base that it does not divide. */
  lemma PrimeIsStrong(a: nat, r: nat, s: nat, x: int)
    requires Prime(x) && 0 < a < x && x - 1 == r * Pow(2, s)
    ensures StrongProbablePrime(a, r, s, x)
  {
    if Divides(x, a) { DividesLe(x, a); }
    Fermat(a, x);
    ModSmall(1, x);
    assert Stage(a, r, s, x) == 1;
    DescendToRoot(a, r, s, x);
  }

  lemma {:induction false} DescendToRoot(a: nat, r: nat, s: nat, x: int)
    requires Prime(x) && Stage(a, r, s, x) == 1
    ensures StrongProbablePrime(a, r, s, x)
  {
    if s > 0 {
      var v := Stage(a, r, s - 1, x);
      StageSquare(a, r, s - 1, x);
      CongMod(v * v, x);
      ModSmall(1, x);
      if v == 0 { ModSmall(0, x); }
      RootsOfOne(v, x);
      if v == 1 { DescendToRoot(a, r, s - 1, x); }
    }
  }

  // ---------- Drawing a base ----------

  /** mbedtls_mpi_fill_random with as many bytes as X has limbs: one answer of the generator, as limbs. */
  method FillRandom(A: Mpi, draw: seq<Limb>)
    requires draw != []
    modifies A
    ensures A.Valid() && A.s == 1 && A.p != [] && A.Mag() == Val(draw)
  {
    A.Grow(|draw|);
    A.Lset(0);
    var n := |A.p|;
    A.p := draw + seq(n - |draw|, _ => 0);
    ValTrailing(A.p, |draw|);
    assert A.p[..|draw|] == draw;
  }

  /** v without its low bits, so that at most k are left. */
  ghost function Cut(v: nat, k: nat): nat {
    if v < Pow(2, k) then v else Cut(v / 2, k)
  }

  lemma {:induction false} CutIsShift(v: nat, j: nat, k: nat)
    requires IsBitLen(v, j)
    ensures Cut(v, k) == if j > k then v / Pow(2, j - k) else v
    decreases j
  {
    if j > k {
      PowMono(2, k, j - 1);
      assert IsBitLen(v / 2, j - 1);
      CutIsShift(v / 2, j - 1, k);
      DivDiv(v, 2, Pow(2, j - 1 - k));
    } else if v > 0 {
      PowMono(2, j, k);
    }
  }

  /** The number that an answer of the generator stands for, cut to the bit length k of m = X - 1. */
  ghost function Answer(draw: seq<Limb>, k: nat): nat {
    Cut(Val(draw), k)
  }

  ghost predicate Usable(draw: seq<Limb>, m: int, k: nat) {
    1 < Answer(draw, k) < m
  }

  /** The answers at i, ..., j - 1 are there and none of them is usable. */
  ghost predicate AllBad(rng: seq<seq<Limb>>, i: nat, j: nat, m: int, k: nat) {
    j <= |rng| && forall n :: i <= n < j ==> !Usable(rng[n], m, k)
  }

  datatype Draw = Base | RetryLimit | RngError

  /**
   Drawing from pos on ends before pos': with the first usable answer, if that is one of the first
   31; with the 32nd answer, whatever it is, after 31 unusable ones; or with the stream.
   */
  ghost predicate DrawEnds(res: Draw, rng: seq<seq<Limb>>, pos: nat, pos': nat, m: int, k: nat) {
    && pos <= pos' <= |rng|
    && match res
       case Base => 0 < pos' - pos <= 31 && AllBad(rng, pos, pos' - 1, m, k) && Usable(rng[pos' - 1], m, k)
       case RetryLimit => pos' - pos == 32 && AllBad(rng, pos, pos' - 1, m, k)
       case RngError => pos' == |rng| && pos' - pos <= 31 && AllBad(rng, pos, pos', m, k)
  }

  /** do { ... } while: answers are cut to the length of W until one lies strictly between 1 and W. */
  method DrawBase(A: Mpi, M: Mpi, rng: seq<seq<Limb>>, pos: nat, ghost k: nat) returns (res: Draw, pos': nat)
    requires A != M && M.Valid() && M.p != [] && pos <= |rng| && forall i :: 0 <= i < |rng| ==> rng[i] != []
    requires M.s == 1 && IsBitLen(M.Mag(), k)
    modifies A
    ensures DrawEnds(res, rng, pos, pos', M.Mag(), k)
    ensures res == Base ==> A.Valid() && A.p != [] && A.Value() == Answer(rng[pos' - 1], k)
  {
    pos' := pos;
    var count := 0;
    while true
      invariant pos <= pos' <= |rng| && count == pos' - pos <= 31 && AllBad(rng, pos, pos', M.Mag(), k)
      decreases |rng| - pos'
    {
      if pos' == |rng| { return RngError, pos'; }
      TakeAnswer(A, M, rng[pos'], k);
      pos' := pos' + 1;
      count := count + 1;
      if count - 1 > 30 { return RetryLimit, pos'; }
      var c := CmpMpi(A, M);
      var d := CmpInt(A, 1);
      if !(c >= 0 || d <= 0) { return Base, pos'; }
    }
  }

  method TakeAnswer(A: Mpi, M: Mpi, draw: seq<Limb>, ghost l: nat)
    requires A != M && M.Valid() && draw != [] && IsBitLen(M.Mag(), l)
    modifies A
    ensures A.Valid() && A.p != [] && A.Value() == Answer(draw, l)
  {
    FillRandom(A, draw);
    var j := BitLen(A);
    var k := BitLen(M);
    SameBitLen(M.Mag(), k, l);
    CutIsShift(A.Mag(), j, l);
    if j > k { ShiftR(A, j - k); }
  }

  lemma SameBitLen(v: nat, k: nat, l: nat)
    requires IsBitLen(v, k) && IsBitLen(v, l)
    ensures k == l
  {
    if k < l { PowMono(2, k, l - 1); }
    if l < k { PowMono(2, l, k - 1); }
  }

  // ---------- One witness ----------

  /** True exactly when A shows that X is no strong probable prime. */
  method IsWitness(A: Mpi, X: Mpi, M: Mpi, R: Mpi, s: nat, RR: Mpi) returns (composite: bool)
    requires A != X && A != M && A != R && RR != A && RR != X && RR != M && RR != R && X != M && X != R
    requires A.Valid() && X.Valid() && M.Valid() && R.Valid() && A.p != [] && X.p != []
    requires X.Value() > 2 && X.Mag() % 2 == 1 && M.Value() == X.Value() - 1 && R.s == 1 && s > 0
    requires 1 < A.Value()
    requires RR.p != [] ==> IsRR(RR, X)
    modifies A, RR
    ensures A.Valid() && A.p != [] && IsRR(RR, X)
    ensures composite <==> !StrongProbablePrime(old(A.Mag()), R.Mag(), s, X.Value())
  {
    ghost var a, x, r := A.Mag(), X.Value(), R.Mag();
    var ret := ExpMod.ExpMod(A, A, R, X, RR);
    assert A.Value() == Stage(a, r, 0, x) by { assert r * Pow(2, 0) == r; }
    var c := CmpMpi(A, M);
    var d := CmpInt(A, 1);
    if c == 0 || d == 0 { return false; }
    composite := SquareUp(A, X, M, s, a, r);
  }

  /** The squaring loop, and the verdict after it. */
  method SquareUp(A: Mpi, X: Mpi, M: Mpi, s: nat, ghost a: nat, ghost r: nat) returns (composite: bool)
    requires A != X && A != M && A.Valid() && X.Valid() && M.Valid() && A.p != [] && X.p != []
    requires X.Value() > 2 && M.Value() == X.Value() - 1 && s > 0
    requires A.Value() == Stage(a, r, 0, X.Value()) && A.Value() != 1 && A.Value() != M.Value()
    modifies A
    ensures A.Valid() && A.p != []
    ensures composite <==> !StrongProbablePrime(a, r, s, X.Value())
  {
    ghost var x, i := X.Value(), 0;
    var T := new Mpi();
    var j, broke := 1, false;
    var c := CmpMpi(A, M);
    while j < s && c != 0 && !broke
      invariant 1 <= j <= s && A.Valid() && A.p != [] && c == Sgn(A.Value() - M.Value())
      invariant T.Valid() && T != A && T != X && T != M
      invariant i == (if broke then j else j - 1) && i < s && A.Value() == Stage(a, r, i, x)
      invariant broke <==> A.Value() == 1
      invariant forall k :: 0 <= k < i ==> Stage(a, r, k, x) != x - 1
      decreases s - j, !broke
    {
      StageSquare(a, r, i, x);
      MulMpi(T, A, A);
      var ret := ModMpi(A, T, X);
      i := i + 1;
      var d := CmpInt(A, 1);
      if d == 0 { broke := true; } else { j := j + 1; }
      c := CmpMpi(A, M);
    }
    SquareVerdict(a, r, s, x, i, A.Value());
    var d := CmpInt(A, 1);
    composite := c != 0 || d == 0;
  }

  lemma SquareVerdict(a: nat, r: nat, s: nat, x: int, i: nat, v: int)
    requires x > 2 && i < s && v == Stage(a, r, i, x) && Stage(a, r, 0, x) != 1
    requires v == 1 || v == x - 1 || i == s - 1
    requires forall k :: 0 <= k < i ==> Stage(a, r, k, x) != x - 1
    ensures StrongProbablePrime(a, r, s, x) <==> v == x - 1
  {
    if v == 1 {
      forall k | i <= k < s
        ensures Stage(a, r, k, x) == 1
      {
        StageOne(a, r, i, k, x);
      }
    }
  }

  // ---------- The test ----------

  /** HAC, table 4.4: how many bases for a number of so many bits. */
  function BasesFor(bits: nat): nat {
    if bits >= 1300 then 2 else if bits >= 850 then 3 else if bits >= 650 then 4 else if bits >= 350 then 8
    else if bits >= 250 then 12 else if bits >= 150 then 18 else 27
  }

  /** The table: fewer bases for longer numbers. */
  ghost predicate IsTableEntry(bits: nat, n: nat) {
    && (bits < 150 ==> n == 27) && (150 <= bits < 250 ==> n == 18) && (250 <= bits < 350 ==> n == 12)
    && (350 <= bits < 650 ==> n == 8) && (650 <= bits < 850 ==> n == 4) && (850 <= bits < 1300 ==> n == 3)
    && (1300 <= bits ==> n == 2)
  }

  datatype Verdict = ProbablePrime | Composite | GaveUp | RngFailed

  /** The number under test: x - 1 = r * 2^s has `bits` bits, and n bases are to be tried. */
  datatype Test = Test(x: int, r: nat, s: nat, bits: nat, n: nat)

  /** The bases of a run, and where in the stream of answers each round begins. */
  datatype Rounds = Rounds(bases: seq<nat>, starts: seq<nat>)

  ghost predicate Strong(t: Test, a: nat) {
    t.x > 0 && StrongProbablePrime(a, t.r, t.s, t.x)
  }

  /** A round that begins at p throws one answer away and draws a base from the following ones. */
  ghost predicate RoundDraws(t: Test, rng: seq<seq<Limb>>, p: nat, q: nat, base: nat) {
    && p < |rng| && DrawEnds(Base, rng, p + 1, q, t.x - 1, t.bits) && base == Answer(rng[q - 1], t.bits)
  }

  ghost predicate RoundsDraw(t: Test, rng: seq<seq<Limb>>, h: Rounds) {
    && |h.starts| == |h.bases| + 1 && h.starts[0] == 0 && h.starts[|h.bases|] <= |rng|
    && forall i :: 0 <= i < |h.bases| ==> RoundDraws(t, rng, h.starts[i], h.starts[i + 1], h.bases[i])
  }

  /**
   What each verdict means, by the answers of the generator. MBEDTLS_ERR_MPI_NOT_ACCEPTABLE covers
   both Composite and GaveUp; only the first says anything about the number. GaveUp: from the start
   of the last round 33 answers have been used, one thrown away and 31 unusable ones before the last.
   */
  ghost predicate VerdictHolds(v: Verdict, t: Test, rng: seq<seq<Limb>>, h: Rounds) {
    && RoundsDraw(t, rng, h) && |h.bases| <= t.n
    && var m, p := |h.bases|, h.starts[|h.bases|];
      match v
      case ProbablePrime => m == t.n && AllStrong(t, h.bases)
      case Composite => m > 0 && AllStrong(t, h.bases[..m - 1]) && !Strong(t, h.bases[m - 1])
      case GaveUp => m < t.n && AllStrong(t, h.bases) && DrawEnds(RetryLimit, rng, p + 1, p + 33, t.x - 1, t.bits)
      case RngFailed => m < t.n && AllStrong(t, h.bases) && StreamEnds(t, rng, p)
  }

  /** A round that begins at p finds no usable answer before the stream ends. */
  ghost predicate StreamEnds(t: Test, rng: seq<seq<Limb>>, p: nat) {
    p == |rng| || DrawEnds(RngError, rng, p + 1, |rng|, t.x - 1, t.bits)
  }

  ghost predicate AllStrong(t: Test, bases: seq<nat>) {
    forall i :: 0 <= i < |bases| ==> Strong(t, bases[i])
  }

  /** The bases lie strictly between 1 and x - 1. */
  lemma BasesInRange(v: Verdict, t: Test, rng: seq<seq<Limb>>, h: Rounds, i: nat)
    requires VerdictHolds(v, t, rng, h) && i < |h.bases|
    ensures 1 < h.bases[i] < t.x - 1
  {
    assert RoundDraws(t, rng, h.starts[i], h.starts[i + 1], h.bases[i]);
  }

  /** No witness is ever found against a prime: it is accepted unless the generator fails it. */
  lemma NeverRejectsPrime(v: Verdict, t: Test, rng: seq<seq<Limb>>, h: Rounds)
    requires Prime(t.x) && t.x - 1 == t.r * Pow(2, t.s) && VerdictHolds(v, t, rng, h)
    ensures v != Composite
  {
    if v == Composite {
      BasesInRange(v, t, rng, h, |h.bases| - 1);
      PrimeIsStrong(h.bases[|h.bases| - 1], t.r, t.s, t.x);
    }
  }

  lemma DrawIsDetermined(v: Draw, w: Draw, rng: seq<seq<Limb>>, pos: nat, p: nat, q: nat, m: int, k: nat)
    requires DrawEnds(v, rng, pos, p, m, k) && DrawEnds(w, rng, pos, q, m, k)
    ensures v == w && p == q
  {
  }

  lemma {:induction false} SameRounds(t: Test, rng: seq<seq<Limb>>, g: Rounds, h: Rounds, i: nat)
    requires RoundsDraw(t, rng, g) && RoundsDraw(t, rng, h) && i <= |g.bases| && i <= |h.bases|
    ensures g.starts[i] == h.starts[i] && (i > 0 ==> g.bases[i - 1] == h.bases[i - 1])
  {
    if i > 0 {
      SameRounds(t, rng, g, h, i - 1);
      assert RoundDraws(t, rng, g.starts[i - 1], g.starts[i], g.bases[i - 1]);
      assert RoundDraws(t, rng, h.starts[i - 1], h.starts[i], h.bases[i - 1]);
      DrawIsDetermined(Base, Base, rng, g.starts[i - 1] + 1, g.starts[i], h.starts[i], t.x - 1, t.bits);
    }
  }

  /** Where one more base has been drawn, neither the retries nor the stream have come to an end. */
  lemma DrewOn(t: Test, rng: seq<seq<Limb>>, h: Rounds, m: nat)
    requires RoundsDraw(t, rng, h) && m < |h.bases|
    ensures var p := h.starts[m];
      !DrawEnds(RetryLimit, rng, p + 1, p + 33, t.x - 1, t.bits) && !StreamEnds(t, rng, p)
  {
    assert RoundDraws(t, rng, h.starts[m], h.starts[m + 1], h.bases[m]);
  }

  /** All bases but the last one tried have passed. */
  lemma EarlierPass(w: Verdict, t: Test, rng: seq<seq<Limb>>, h: Rounds, i: nat)
    requires VerdictHolds(w, t, rng, h) && i < |h.bases|
    ensures i < |h.bases| - 1 ==> Strong(t, h.bases[i])
    ensures i == |h.bases| - 1 ==> (Strong(t, h.bases[i]) <==> w != Composite)
  {
    var m := |h.bases|;
    if w == Composite && i < m - 1 { assert h.bases[..m - 1][i] == h.bases[i]; }
  }

  /** A run whose rounds are a beginning of another's has not stopped earlier. */
  lemma StopsAlike(v: Verdict, w: Verdict, t: Test, rng: seq<seq<Limb>>, g: Rounds, h: Rounds)
    requires VerdictHolds(v, t, rng, g) && VerdictHolds(w, t, rng, h) && |g.bases| <= |h.bases|
    ensures v == w && |g.bases| == |h.bases|
  {
    var m := |g.bases|;
    SameRounds(t, rng, g, h, m);
    if m > 0 {
      EarlierPass(v, t, rng, g, m - 1);
      EarlierPass(w, t, rng, h, m - 1);
    }
    if m < |h.bases| { DrewOn(t, rng, h, m); } else { SameEnd(v, w, t, rng, g, h); }
  }

  lemma SameEnd(v: Verdict, w: Verdict, t: Test, rng: seq<seq<Limb>>, g: Rounds, h: Rounds)
    requires VerdictHolds(v, t, rng, g) && VerdictHolds(w, t, rng, h) && |g.bases| == |h.bases|
    requires g.starts[|g.bases|] == h.starts[|g.bases|] && (v == Composite <==> w == Composite)
    ensures v == w
  {
  }

  /** The answers of the generator determine the verdict. */
  lemma VerdictIsDetermined(v: Verdict, w: Verdict, t: Test, rng: seq<seq<Limb>>, g: Rounds, h: Rounds)
    requires VerdictHolds(v, t, rng, g) && VerdictHolds(w, t, rng, h)
    ensures v == w && |g.bases| == |h.bases|
  {
    if |g.bases| <= |h.bases| { StopsAlike(v, w, t, rng, g, h); } else { StopsAlike(w, v, t, rng, h, g); }
  }

  method MillerRabin(X: Mpi, rng: seq<seq<Limb>>) returns (v: Verdict, ghost t: Test, ghost h: Rounds)
    requires X.Valid() && X.p != [] && X.Value() > 2 && X.Mag() % 2 == 1
    requires forall i :: 0 <= i < |rng| ==> rng[i] != []
    ensures t.x == X.Value() && t.r % 2 == 1 && t.x - 1 == t.r * Pow(2, t.s) && IsBitLen(t.x - 1, t.bits)
    ensures IsTableEntry(t.bits, t.n)
    ensures VerdictHolds(v, t, rng, h)
    ensures Prime(X.Value()) ==> v != Composite
  {
    var M, R, twos := SplitPredecessor(X);
    var n := BitLen(X);
    OddBitLen(X.Mag(), n);
    t := Test(X.Value(), R.Mag(), twos, n, BasesFor(n));
    v, h := RoundLoop(X, M, R, twos, BasesFor(n), rng, t);
    if Prime(X.Value()) { NeverRejectsPrime(v, t, rng, h); }
  }

  /** An odd number has as many bits as its predecessor. */
  lemma OddBitLen(x: nat, n: nat)
    requires x > 2 && x % 2 == 1 && IsBitLen(x, n)
    ensures IsBitLen(x - 1, n)
  {
    assert Pow(2, 1) == 2 && Pow(2, 0) == 1 && n > 1;
    assert Pow(2, n - 1) == 2 * Pow(2, n - 2);
  }

  /** The predecessor of X, its odd part and the number of twos. */
  method SplitPredecessor(X: Mpi) returns (M: Mpi, R: Mpi, s: nat)
    requires X.Valid() && X.p != [] && X.Value() > 2 && X.Mag() % 2 == 1
    ensures fresh(M) && fresh(R) && M.Valid() && M.p != [] && R.Valid() && R.s == 1
    ensures M.Value() == X.Value() - 1 && s > 0 && R.Mag() % 2 == 1 && M.Value() == R.Mag() * Pow(2, s)
  {
    M := new Mpi();
    SubInt(M, X, 1);
    assert M.Mag() == X.Mag() - 1;
    R, s := OddPart(M);
  }

  method OddPart(M: Mpi) returns (R: Mpi, s: nat)
    requires M.Valid() && M.p != [] && M.s == 1 && M.Mag() > 0 && M.Mag() % 2 == 0
    ensures fresh(R) && R.Valid() && R.s == 1 && s > 0 && R.Mag() % 2 == 1 && M.Mag() == R.Mag() * Pow(2, s)
  {
    s := Lsb(M);
    SplitEven(M.Mag(), s);
    R := new Mpi();
    R.Copy(M);
    ShiftR(R, s);
  }

  lemma SplitEven(m: nat, s: nat)
    requires m > 0 && m % 2 == 0 && IsLsb(m, s)
    ensures s > 0 && m == (m / Pow(2, s)) * Pow(2, s) && m / Pow(2, s) > 0 && (m / Pow(2, s)) % 2 == 1
  {
    var k :| k % 2 == 1 && m == k * Pow(2, s);
    DivModUnique(m, Pow(2, s), k, 0);
    if k <= 0 { MulLe(k, 0, Pow(2, s)); }
    assert Pow(2, 0) == 1;
  }

  method RoundLoop(X: Mpi, M: Mpi, R: Mpi, s: nat, n: nat, rng: seq<seq<Limb>>, ghost t: Test)
    returns (v: Verdict, ghost h: Rounds)
    requires X.Valid() && X.p != [] && X.Value() > 2 && X.Mag() % 2 == 1 && X != M && X != R
    requires M.Valid() && M.p != [] && R.Valid() && R.s == 1 && M.Value() == X.Value() - 1 && s > 0
    requires forall i :: 0 <= i < |rng| ==> rng[i] != []
    requires t == Test(X.Value(), R.Mag(), s, t.bits, n) && IsBitLen(M.Mag(), t.bits)
    ensures VerdictHolds(v, t, rng, h)
  {
    var A := new Mpi();
    var RR := new Mpi();
    var i, pos := 0, 0;
    h := Rounds([], [0]);
    while i < n
      invariant 0 <= i <= n && |h.bases| == i && Going(t, rng, h, pos) && (RR.p != [] ==> IsRR(RR, X))
    {
      v, pos, h := Round(A, X, M, R, s, RR, rng, pos, t, h);
      if v != ProbablePrime { return v, h; }
      i := i + 1;
    }
    return ProbablePrime, h;
  }

  /** All bases so far have passed, and the next answer is at pos. */
  ghost predicate Going(t: Test, rng: seq<seq<Limb>>, h: Rounds, pos: nat) {
    RoundsDraw(t, rng, h) && h.starts[|h.bases|] == pos && AllStrong(t, h.bases)
  }

  lemma OneMoreRound(t: Test, rng: seq<seq<Limb>>, h: Rounds, pos: nat, end: nat, base: nat)
    requires Going(t, rng, h, pos) && RoundDraws(t, rng, pos, end, base) && |h.bases| < t.n
    ensures var g := Rounds(h.bases + [base], h.starts + [end]);
      && RoundsDraw(t, rng, g) && g.bases[..|h.bases|] == h.bases
      && (Strong(t, base) ==> Going(t, rng, g, end))
      && (!Strong(t, base) ==> VerdictHolds(Composite, t, rng, g))
  {
    var g := Rounds(h.bases + [base], h.starts + [end]);
    assert g.bases[..|h.bases|] == h.bases;
    forall i | 0 <= i < |g.bases|
      ensures RoundDraws(t, rng, g.starts[i], g.starts[i + 1], g.bases[i])
    {
      assert i < |h.bases| ==> RoundDraws(t, rng, h.starts[i], h.starts[i + 1], h.bases[i]);
    }
  }

  /** One pass of the loop; ProbablePrime means that it goes on. */
  method Round(A: Mpi, X: Mpi, M: Mpi, R: Mpi, s: nat, RR: Mpi, rng: seq<seq<Limb>>, pos: nat, ghost t: Test,
    ghost h: Rounds) returns (v: Verdict, end: nat, ghost g: Rounds)
    requires A != X && A != M && A != R && RR != A && RR != X && RR != M && RR != R && X != M && X != R
    requires X.Valid() && X.p != [] && X.Value() > 2 && X.Mag() % 2 == 1
    requires M.Valid() && M.p != [] && R.Valid() && R.s == 1 && M.Value() == X.Value() - 1 && s > 0
    requires forall i :: 0 <= i < |rng| ==> rng[i] != []
    requires t == Test(X.Value(), R.Mag(), s, t.bits, t.n) && IsBitLen(M.Mag(), t.bits)
    requires Going(t, rng, h, pos) && |h.bases| < t.n && (RR.p != [] ==> IsRR(RR, X))
    modifies A, RR
    ensures RR.p != [] ==> IsRR(RR, X)
    ensures if v == ProbablePrime then Going(t, rng, g, end) && |g.bases| == |h.bases| + 1
      else VerdictHolds(v, t, rng, g)
  {
    // the first answer is adjusted and then overwritten without being used
    if pos == |rng| { return RngFailed, pos, h; }
    var res;
    res, end := DrawBase(A, M, rng, pos + 1, t.bits);
    if res == RngError { return RngFailed, end, h; }
    if res == RetryLimit { return GaveUp, end, h; }
    g := Rounds(h.bases + [A.Mag()], h.starts + [end]);
    OneMoreRound(t, rng, h, pos, end, A.Mag());
    var composite := IsWitness(A, X, M, R, s, RR);
    v := if composite then Composite else ProbablePrime;
  }
}
