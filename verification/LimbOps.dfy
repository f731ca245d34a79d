/**
 Single-limb machine arithmetic with its wrap-around, and the carry and borrow
 loops that run over limb buffers.
 */
module LimbOps {
  import opened Arith
  import opened Limbs

  // ---------- One limb ----------

  function Bit(c: bool): Limb {
    if c then 1 else 0
  }

  /** Unsigned `a + b`, `a - b`, `a * b` of limbs: reduced modulo 2^biL. */
  function AddW(a: Limb, b: Limb): (r: Limb)
    ensures a + b == r + B * Bit(r < b)
  {
    if a + b < B then a + b else a + b - B
  }

  function SubW(a: Limb, b: Limb): (r: Limb)
    ensures a - b == r - B * Bit(a < b)
  {
    if a < b then a - b + B else a - b
  }

  function MulW(a: Limb, b: Limb): (r: Limb)
    ensures Cong(r, a * b, B)
  {
    CongMod(a * b, B);
    (a * b) % B
  }

  lemma ProductBound(s: Limb, b: Limb, c: Limb, d: Limb)
    ensures s * b + c + d < B * B
  {
    MulLe(s, B - 1, b);
    MulLe(b, B - 1, B - 1);
    assert (B - 1) * (B - 1) == B * B - B - B + 1;
  }

  lemma DigitBound(hi: int, lo: int)
    requires 0 <= lo && hi * B + lo < B * B
    ensures hi < B
  {
    MulCancelLt(hi, B, B);
  }

  /** Adds a limb to a double limb (low, high), the carry found by comparing. */
  function AddDouble(lo: Limb, hi: Limb, c: Limb): (r: (Limb, Limb))
    requires lo + hi * B + c < B * B
    ensures r.0 + r.1 * B == lo + hi * B + c
  {
    var lo1 := AddW(lo, c);
    var hi1 := hi + Bit(lo1 < c);
    assert lo1 + hi1 * B == lo + hi * B + c by { MulDist(B, hi, Bit(lo1 < c)); }
    assert hi1 < B by { DigitBound(hi1, lo1); }
    (lo1, hi1)
  }

  lemma Halves(r: int)
    requires 0 <= r < B * B
    ensures 0 <= r / B < B && 0 <= r % B < B && r == r % B + (r / B) * B
  {
    DivModFacts(r, B);
    DigitBound(r / B, r % B);
  }

  /** MULADDC_CORE: the double-limb value s*b + c + d as (low, high). */
  function MulAdd(s: Limb, b: Limb, c: Limb, d: Limb): (r: (Limb, Limb))
    ensures r.0 + r.1 * B == s * b + c + d
  {
    var r := s * b;
    assert 0 <= r && r + c + d < B * B by { ProductBound(s, b, c, d); }
    Halves(r);
    var t := AddDouble(r % B, r / B, c);
    AddDouble(t.0, t.1, d)
  }

  /** One limb of an addition or a subtraction with carry: (limb, carry out). */
  function AddLimb(d: Limb, c: Limb, s: Limb): (r: (Limb, Limb))
    requires c <= 1
    ensures r.0 + B * r.1 == d + c + s && r.1 <= 1
  {
    var d1 := AddW(d, c);
    var d2 := AddW(d1, s);
    (d2, Bit(d1 < c) + Bit(d2 < s))
  }

  function SubLimb(d: Limb, c: Limb, s: Limb): (r: (Limb, Limb))
    requires c <= 1
    ensures r.0 - B * r.1 == d - c - s && r.1 <= 1
  {
    var d1 := SubW(d, c);
    (SubW(d1, s), Bit(d1 < s) + Bit(d < c))
  }
}
