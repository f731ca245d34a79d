/**
 mbedtls_int_div_int: a double limb divided by a limb, using half-limb arithmetic
 only (Knuth 4.3.1, Algorithm D, with two half-limb digits).
 */
module IntDiv {
  import opened Arith
  import opened Limbs
  import opened LimbOps
  import opened Bits
  import opened Shift
  import opened Montgomery

  lemma HalfFacts()
    ensures HalfRadix(B) >= 65536 && HalfRadix(B) * HalfRadix(B) == B && HalfRadix(B) % 2 == 0
  {
    RadixFacts();
  }

  /** Products and sums of half limbs fit in a limb, so the digit test compares what it means to. */
  lemma TestFits(q: Limb, d0: Limb, r: Limb, w: Limb, h: Limb)
    requires h * h == B && q < h && d0 < h && r < h && w < h
    ensures MulW(q, d0) == q * d0 && AddW(MulW(h, r), w) == h * r + w
  {
    MulLtMul(q, d0, h, h);
    MulExact(q, d0);
    MulLe(r, h - 1, h);
    MulDist(h, h, -1);
    MulExact(h, r);
  }

  lemma MulExact(a: Limb, b: Limb)
    requires a * b < B
    ensures MulW(a, b) == a * b
  {
    MulLe(0, a, b);
    ModSmall(a * b, B);
  }

  /** The first remainder is below d1, and below a half limb. */
  lemma FirstRemainder(u: Limb, d: Limb, d1: Limb, d0: Limb, h: int, q: int)
    requires d == d1 * h + d0 && h * h == B && h > 1 && 0 < d1 && q == u / d1
    ensures 0 <= q < B && 0 <= d1 * q < B && 0 <= u - d1 * q < d1 < h
  {
    DivModFacts(u, d1);
    if q < 0 { MulLe(q, -1, d1); }
    MulLe(0, q, d1);
    MulLe(1, d1, q);
    if d1 >= h { MulLe(h, d1, h); }
  }

  /**
   One quotient digit: u*H + w divided by d = d1*H + d0, for u < d and d1 >= H/2, all in limbs.
   The estimate u / d1 is lowered until the two-digit test passes or r0 leaves a half limb, from
   where on the test would overflow.
   */
  method DivDigit(u: Limb, w: Limb, d: Limb, d1: Limb, d0: Limb) returns (q: Limb)
    requires d == d1 * HalfRadix(B) + d0 && d0 < HalfRadix(B) && w < HalfRadix(B)
    requires HalfRadix(B) <= 2 * d1 && u < d
    ensures q < HalfRadix(B)
    ensures 0 <= u * HalfRadix(B) + w - q * d < d
  {
    HalfLimb();
    var h: Limb := HalfRadix(B);
    FirstRemainder(u, d, d1, d0, h, u / d1);
    EstimateBound(u, w, d, d1, d0, h, u / d1);
    q := u / d1;
    MulExact(d1, q);
    var r: Limb := SubW(u, MulW(d1, q));
    var more := true;
    while more && !Passes(q, d0, r, w, h)
      invariant IsEstimate(u, w, d, d1, d0, h, q, r)
      invariant if more then r < h else q <= h <= r
      decreases q
    {
      if q < h { TestFits(q, d0, r, w, h); }
      LowerEstimate(u, w, d, d1, d0, h, q, r);
      q, r := LowerDigit(q, r, d1);
      if r >= h { more := false; }
    }
    if more { TestFits(q, d0, r, w, h); }
    DigitExact(u, w, d, d1, d0, h, q, r);
  }

  lemma HalfLimb()
    ensures 65536 <= HalfRadix(B) < B && HalfRadix(B) * HalfRadix(B) == B && 2 * HalfRadix(B) <= B
  {
    HalfFacts();
    MulLe(2, HalfRadix(B), HalfRadix(B));
  }

  /** The two-digit test in limb arithmetic; it is not made when q leaves a half limb. */
  predicate Passes(q: Limb, d0: Limb, r: Limb, w: Limb, h: Limb) {
    q < h && MulW(q, d0) <= AddW(MulW(h, r), w)
  }

  /** The digit is lowered and the remainder raised; neither wraps. */
  method LowerDigit(q: Limb, r: Limb, d1: Limb) returns (q': Limb, r': Limb)
    requires q > 0 && r < HalfRadix(B) && d1 < HalfRadix(B)
    ensures q' == q - 1 && r' == r + d1
  {
    HalfLimb();
    q', r' := SubW(q, 1), AddW(r, d1);
  }

  /** q is at least the digit and at most two too large; r = u - q*d1. */
  ghost predicate IsEstimate(u: int, w: int, d: int, d1: int, d0: int, h: int, q: int, r: int) {
    && 0 <= q <= h + 1 && 0 <= r && q * d1 + r == u
    && u * h + w < (q + 1) * d
  }

  lemma LowerEstimate(u: int, w: int, d: int, d1: int, d0: int, h: int, q: int, r: int)
    requires d == d1 * h + d0 && 0 <= w < h && 0 <= u < d && d1 >= 0
    requires IsEstimate(u, w, d, d1, d0, h, q, r) && (q >= h || q * d0 > h * r + w)
    ensures IsEstimate(u, w, d, d1, d0, h, q - 1, r + d1) && 0 < q && q - 1 <= h
  {
    TooLarge(u, w, d, d1, d0, h, q, r);
    MulDist(d1, q, -1);
  }

  lemma SplitTimes(q: int, d: int, d1: int, d0: int, h: int)
    requires d == d1 * h + d0
    ensures q * d == (q * d1) * h + q * d0
  {
    MulDist(q, d1 * h, d0);
    MulAssoc(q, d1, h);
  }

  lemma EstimateBound(u: int, w: int, d: int, d1: int, d0: int, h: int, q: int)
    requires d == d1 * h + d0 && 0 <= d0 < h <= 2 * d1 && 0 <= u < d && 0 <= w < h
    requires d1 > 0 && q == u / d1
    ensures IsEstimate(u, w, d, d1, d0, h, q, u - d1 * q)
  {
    var r := u % d1;
    assert u == q * d1 + r && 0 <= r < d1 by { DivModFacts(u, d1); }
    assert q < h + 2 by {
      MulDist(d1, h, 2);
      MulCancelLt(q, h + 2, d1);
    }
    assert q >= 0 by { if q < 0 { MulLe(q, -1, d1); } }
    EstimateAbove(u, w, d, d1, d0, h, q, r);
  }

  lemma EstimateAbove(u: int, w: int, d: int, d1: int, d0: int, h: int, q: int, r: int)
    requires d == d1 * h + d0 && 0 <= d0 && 0 <= w < h && q >= 0
    requires u == q * d1 + r && r < d1
    ensures u * h + w < (q + 1) * d
  {
    assert u + 1 <= (q + 1) * d1 by { MulDist(d1, q, 1); }
    MulLe(u + 1, (q + 1) * d1, h);
    MulDist(h, u, 1);
    SplitTimes(q + 1, d, d1, d0, h);
    MulLe(0, q + 1, d0);
  }

  /** A failed test means the digit is too large. */
  lemma TooLarge(u: int, w: int, d: int, d1: int, d0: int, h: int, q: int, r: int)
    requires d == d1 * h + d0 && 0 <= w < h && 0 <= u < d
    requires q * d1 + r == u && (q >= h || q * d0 > h * r + w)
    ensures u * h + w < q * d && q > 0
  {
    if q >= h {
      MulLe(u + 1, d, h);
      MulDist(h, u, 1);
      MulLe(h, q, d);
    } else {
      SplitTimes(q, d, d1, d0, h);
      MulDist(h, q * d1, r);
    }
    MulLe(0, u, h);
    if q <= 0 { MulLe(q, 0, d); }
  }

  /** When the loop stops the digit is not too large either. */
  lemma DigitExact(u: int, w: int, d: int, d1: int, d0: int, h: int, q: int, r: int)
    requires d == d1 * h + d0 && 0 <= d0 < h && 0 <= w < h && 0 <= u < d
    requires 0 <= q <= h && q * d1 + r == u
    requires q * d0 <= h * r + w || r >= h
    ensures q * d <= u * h + w && q < h
  {
    if r >= h {
      MulLe(q, h, d0);
      MulLe(d0, r, h);
    }
    SplitTimes(q, d, d1, d0, h);
    MulDist(h, q * d1, r);
    MulLe(u + 1, d, h);
    MulDist(h, u, 1);
    MulCancelLt(q, h, d);
  }

  /** Wrapped limb arithmetic is exact when the true value is a limb. */
  lemma WrapExact(a: Limb, b: Limb, w: Limb, q: Limb, d: Limb)
    requires 0 <= a * b + w - q * d < B
    ensures AddW(MulW(a, b), SubW(w, MulW(q, d))) == a * b + w - q * d
    ensures SubW(AddW(MulW(a, b), w), MulW(q, d)) == a * b + w - q * d
  {
    var x, y := MulW(a, b), MulW(q, d);
    SubWCong(w, y);
    CongSub(w, w, y, q * d, B);
    AddWCong(x, SubW(w, y));
    CongAdd(x, a * b, SubW(w, y), w - q * d, B);
    CongUnique(AddW(x, SubW(w, y)), a * b + w - q * d, B);
    AddWCong(x, w);
    CongAdd(x, a * b, w, w, B);
    SubWCong(AddW(x, w), y);
    CongSub(AddW(x, w), a * b + w, y, q * d, B);
    CongUnique(SubW(AddW(x, w), y), a * b + w - q * d, B);
  }

  /** The two digits of (v1*B + v0) / d for a normalised d, and the remainder. */
  method DivNormalised(v1: Limb, v0: Limb, d: Limb) returns (q: Limb, r: Limb)
    requires v1 < d && B <= 2 * d
    ensures q * d + r == v1 * B + v0 && r < d
  {
    var h := HalfRadix(B);
    assert h > 1 && h * h == B && h < B by { HalfFacts(); MulLt(1, h, h); }
    var d1, d0 := d / h, d % h;
    assert d == d1 * h + d0 && 0 <= d0 < h && h <= 2 * d1 && 0 <= d1 < h by { HalvesOf(d, h); NormalisedHalf(d, h); }
    var hi, lo := v0 / h, v0 % h;
    assert v0 == hi * h + lo && 0 <= lo < h && 0 <= hi < h by { HalvesOf(v0, h); }
    var q1 := DivDigit(v1, hi, d, d1, d0);
    WrapExact(v1, h, hi, q1, d);
    var x := AddW(MulW(v1, h), SubW(hi, MulW(q1, d)));
    var q0 := DivDigit(x, lo, d, d1, d0);
    WrapExact(x, h, lo, q0, d);
    r := SubW(AddW(MulW(x, h), lo), MulW(q0, d));
    TwoDigits(v1, v0, d, h, hi, lo, q1, x, q0, r);
    assert 0 <= q1 * h + q0 < B by { MulLe(q1, h - 1, h); MulDist(h, h, -1); MulLe(0, q1, h); }
    MulLe(0, q1, h);
    MulExact(q1, h);
    q := AddW(MulW(q1, h), q0);
  }

  lemma HalvesOf(v: Limb, h: int)
    requires h > 0 && h * h == B
    ensures v == (v / h) * h + v % h && 0 <= v % h < h && 0 <= v / h < h
  {
    DivModFacts(v, h);
    MulCancelLt(v / h, h, h);
    if v / h < 0 { MulLe(v / h, -1, h); }
  }

  lemma NormalisedHalf(d: Limb, h: int)
    requires h > 0 && h * h == B && B <= 2 * d && h == HalfRadix(B)
    ensures h <= 2 * (d / h)
  {
    HalfFacts();
    var k := h / 2;
    HalvesOf(d, h);
    if d / h < k {
      MulLe(d / h + 1, k, h);
      MulDist(h, d / h, 1);
      MulAssoc(2, k, h);
    }
  }

  lemma TwoDigits(v1: int, v0: int, d: int, h: int, hi: int, lo: int, q1: int, x: int, q0: int, r: int)
    requires h * h == B && v0 == hi * h + lo
    requires x == v1 * h + hi - q1 * d && r == x * h + lo - q0 * d
    ensures (q1 * h + q0) * d + r == v1 * B + v0
  {
    calc {
      x * h;
      (v1 * h + hi - q1 * d) * h;
      { MulDist(h, v1 * h + hi, -(q1 * d)); MulDist(h, v1 * h, hi); MulAssoc(v1, h, h); }
      v1 * B + hi * h - (q1 * d) * h;
      { MulAssoc(q1, d, h); MulAssoc(q1, h, d); }
      v1 * B + hi * h - (q1 * h) * d;
    }
    MulDist(d, q1 * h, q0);
  }

  /**
   mbedtls_int_div_int without a double-width type: divisor and dividend are shifted
   until the divisor's top bit is set. Overflow and division by zero saturate.
   */
  method IntDivInt(u1: Limb, u0: Limb, d: Limb) returns (q: Limb, r: Limb)
    ensures d == 0 || d <= u1 ==> q == B - 1 && r == B - 1
    ensures u1 < d ==> q * d + r == u1 * B + u0 && r < d
  {
    if d == 0 || u1 >= d { return B - 1, B - 1; }
    var s := Clz(d);
    var v1, v0, e := ShiftUp(u1, u0, d, s);
    var rem: Limb;
    q, rem := DivNormalised(v1, v0, e);
    UndoShift(u1 * B + u0, d, Pow(2, s), v1 * B + v0, q, rem);
    r := rem / Pow(2, s);
  }

  /** Divisor and dividend shifted by s, the top bits of u0 entering u1. */
  method ShiftUp(u1: Limb, u0: Limb, d: Limb, s: nat) returns (v1: Limb, v0: Limb, e: Limb)
    requires s <= LimbBits(B) && IsBitLen(d, LimbBits(B) - s) && u1 < d
    ensures e == d * Pow(2, s) && B <= 2 * e && v1 < e && v1 * B + v0 == (u1 * B + u0) * Pow(2, s)
  {
    NormaliseFits(d, u1, u0, s);
    ShiftFactor(d, s);
    var m: Limb := Pow(2, s);
    var top := if s == 0 then 0 else u0 / Pow(2, LimbBits(B) - s);
    MulLe(u1, d, m);
    MulExact(d, m);
    MulExact(u1, m);
    v1, v0, e := MulW(u1, m) + top, MulW(u0, m), MulW(d, m);
    ShiftedDividend(u1, u0, m, top, v0);
  }

  /** Shifting by the leading zeros of d fills its top bit, loses nothing of u1, and keeps u1 < d. */
  lemma NormaliseFits(d: Limb, u1: Limb, u0: Limb, s: nat)
    requires s <= LimbBits(B) && IsBitLen(d, LimbBits(B) - s) && u1 < d
    ensures var m, top := Pow(2, s), (if s == 0 then 0 else u0 / Pow(2, LimbBits(B) - s));
      && d * m < B <= 2 * (d * m) && 0 <= u1 * m + top < d * m
      && (u0 * m) % B + top * B == u0 * m && 0 <= (u0 * m) % B < B
  {
    var m, h := Pow(2, s), Pow(2, LimbBits(B) - s);
    assert m * h == B by { RadixSplit(s); }
    ShlParts(u0, m, h);
    assert s == 0 ==> u0 / h == 0 by { if s == 0 { ModSmall(u0, B); } }
    MulLt(d, h, m);
    TopBit(d, m, h, Pow(2, LimbBits(B) - s - 1));
    MulLe(u1 + 1, d, m);
    MulDist(m, u1, 1);
    MulLe(0, u1, m);
  }

  lemma ShiftFactor(d: Limb, s: nat)
    requires d > 0 && d * Pow(2, s) < B
    ensures 0 < Pow(2, s) < B
  {
    MulLe(1, d, Pow(2, s));
  }

  lemma TopBit(d: int, m: int, h: int, k: int)
    requires h == 2 * k && k <= d && m > 0
    ensures m * h <= 2 * (d * m)
  {
    MulLe(k, d, m);
    MulAssoc(2, k, m);
  }

  lemma UndoShift(u: int, d: int, m: int, v: int, q: int, rem: int)
    requires m > 0 && v == u * m && q * (d * m) + rem == v && 0 <= rem < d * m
    ensures q * d + rem / m == u && 0 <= rem / m < d
  {
    var r := u - q * d;
    assert rem == r * m by { MulDist(m, u, -(q * d)); MulAssoc(q, d, m); }
    DivModUnique(rem, m, r, 0);
    MulCancelLt(r, d, m);
    MulCancelLt(-1, r, m);
  }

  lemma ShiftedDividend(u1: int, u0: int, m: int, top: int, low: int)
    requires low + top * B == u0 * m
    ensures (u1 * m + top) * B + low == (u1 * B + u0) * m
  {
    MulDist(B, u1 * m, top);
    MulAssoc(u1, m, B);
    MulAssoc(u1, B, m);
    MulDist(m, u1 * B, u0);
  }
}
