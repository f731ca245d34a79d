/**
 CMAC as a stream: cmac_multiply_by_u, cmac_generate_subkeys, cmac_pad, cmac_update and
 cmac_finish, against one-shot CMAC (sections 2.3 and 2.4 of RFC 4493).
 */
module Cmac {
  import opened Options
  import opened Blocks
  import Arith

  // ----- doubling in GF(2^n) -----

  function BitMask(k: nat): bv8
    requires k < 8
  {
    match k
    case 0 => 0x80 case 1 => 0x40 case 2 => 0x20 case 3 => 0x10
    case 4 => 0x08 case 5 => 0x04 case 6 => 0x02 case _ => 0x01
  }

  /** Bit k of a byte, the most significant one first. */
  ghost predicate BitOf(x: bv8, k: nat)
    requires k < 8
  {
    x & BitMask(k) != 0
  }

  /** A block as a polynomial over GF(2), the highest coefficient first. */
  ghost function Bits(b: Bytes): seq<bool> {
    seq(8 * |b|, i requires 0 <= i < 8 * |b| => BitOf(b[i / 8], i % 8))
  }

  /** u^128 + u^7 + u^2 + u + 1 and u^64 + u^4 + u^3 + u + 1. */
  ghost predicate InPoly(bs: nat, e: int) {
    e == 8 * bs || (if bs == 16 then e in {7, 2, 1, 0} else e in {4, 3, 1, 0})
  }

  /** u times p, reduced by the polynomial of the field. */
  ghost function TimesU(bs: nat, p: seq<bool>): (r: seq<bool>)
    requires bs > 0 && |p| == 8 * bs
    ensures |r| == |p|
  {
    var up := p + [false];
    var reduced := if up[0] then seq(|up|, j requires 0 <= j < |up| => up[j] != InPoly(bs, 8 * bs - j)) else up;
    reduced[1..]
  }

  function RConst(bs: nat): bv8 {
    if bs == 16 then 0x87 else 0x1B
  }

  /** The bytes of the doubled block. */
  ghost function Double(b: Bytes): (r: Bytes)
    requires |b| == 16 || |b| == 8
    ensures |r| == |b|
  {
    var r := Shifted(b);
    if b[0] >> 7 != 0 then r[|b| - 1 := r[|b| - 1] ^ RConst(|b|)] else r
  }

  /** x shifted by one bit, the first bit of y coming in. */
  function ShiftByte(x: bv8, y: bv8): bv8 {
    (x << 1) | (y >> 7)
  }

  ghost function Shifted(b: Bytes): (r: Bytes)
    ensures |r| == |b|
  {
    seq(|b|, i requires 0 <= i < |b| => ShiftByte(b[i], if i + 1 < |b| then b[i + 1] else 0))
  }

  lemma ShiftBit(x: bv8, y: bv8, k: nat)
    requires k < 8
    ensures BitOf(ShiftByte(x, y), k) == if k < 7 then BitOf(x, k + 1) else BitOf(y, 0)
    ensures (x >> 7 != 0) == BitOf(x, 0) && !BitOf(0, k)
  {
  }

  lemma XorBit(x: bv8, y: bv8, k: nat)
    requires k < 8
    ensures BitOf(x ^ y, k) == (BitOf(x, k) != BitOf(y, k))
  {
    XorMasked(x, y, BitMask(k));
  }

  lemma XorMasked(x: bv8, y: bv8, m: bv8)
    requires m & (m - 1) == 0
    ensures ((x ^ y) & m != 0) == ((x & m != 0) != (y & m != 0))
  {
  }

  lemma RBit(bs: nat, k: nat)
    requires k < 8 && (bs == 8 || bs == 16)
    ensures BitOf(RConst(bs), k) == InPoly(bs, 7 - k)
  {
  }

  /** The byte-wise loop doubles in the field. */
  lemma DoubleIsTimesU(b: Bytes)
    requires |b| == 16 || |b| == 8
    ensures Bits(Double(b)) == TimesU(|b|, Bits(b))
  {
    var n := 8 * |b|;
    var t := TimesU(|b|, Bits(b));
    forall i | 0 <= i < n
      ensures Bits(Double(b))[i] == t[i]
    {
      DoubleBit(b, i);
    }
  }

  lemma ShiftedBit(b: Bytes, i: nat)
    requires i < 8 * |b|
    ensures Bits(Shifted(b))[i] == (i + 1 < 8 * |b| && Bits(b)[i + 1])
  {
    var q, k := i / 8, i % 8;
    var next := if q + 1 < |b| then b[q + 1] else 0;
    ShiftBit(b[q], next, k);
    if k == 7 { assert (i + 1) / 8 == q + 1 && (i + 1) % 8 == 0; }
      else { assert (i + 1) / 8 == q && (i + 1) % 8 == k + 1; }
  }

  lemma TimesUBit(bs: nat, p: seq<bool>, i: nat)
    requires bs > 0 && i < |p| == 8 * bs
    ensures TimesU(bs, p)[i] == ((i + 1 < |p| && p[i + 1]) != (p[0] && InPoly(bs, 8 * bs - 1 - i)))
  {
  }

  lemma LastByteBit(b: Bytes, i: nat)
    requires (|b| == 16 || |b| == 8) && i < 8 * |b| && b[0] >> 7 != 0
    ensures Bits(Double(b))[i] == (Bits(Shifted(b))[i] != InPoly(|b|, 8 * |b| - 1 - i))
  {
    var q, k := i / 8, i % 8;
    if q == |b| - 1 {
      XorBit(Shifted(b)[q], RConst(|b|), k);
      RBit(|b|, k);
      assert 7 - k == 8 * |b| - 1 - i;
    } else {
      assert 8 * |b| - 1 - i >= 8 && i >= 0;
    }
  }

  lemma DoubleBit(b: Bytes, i: nat)
    requires (|b| == 16 || |b| == 8) && i < 8 * |b|
    ensures Bits(Double(b))[i] == TimesU(|b|, Bits(b))[i]
  {
    ShiftedBit(b, i);
    ShiftBit(b[0], 0, 0);
    TimesUBit(|b|, Bits(b), i);
    assert Bits(b)[0] == BitOf(b[0], 0);
    if b[0] >> 7 != 0 { LastByteBit(b, i); }
  }

  /** cmac_multiply_by_u; None for a block size other than 8 or 16. */
  method MultiplyByU(input: Bytes) returns (r: Option<Bytes>)
    ensures r == if |input| == 16 || |input| == 8 then Some(Double(input)) else None
  {
    var bs := |input|;
    if bs != 16 && bs != 8 { return None; }
    var output := ShiftLoop(input);
    var mask: bv8 := 0 - (input[0] >> 7);
    MaskIsAll(input[0], RConst(bs), output[bs - 1]);
    output[bs - 1] := output[bs - 1] ^ (RConst(bs) & mask);
    assert output[..] == Double(input);
    return Some(output[..]);
  }

  method ShiftLoop(input: Bytes) returns (output: array<bv8>)
    ensures fresh(output) && output[..] == Shifted(input)
  {
    var bs := |input|;
    output := new bv8[bs];
    var overflow: bv8 := 0;
    var i := bs - 1;
    while i >= 0
      invariant -1 <= i < bs
      invariant overflow == (if i + 1 < bs then input[i + 1] else 0) >> 7
      invariant forall k :: i < k < bs ==> output[k] == Shifted(input)[k]
    {
      output[i] := (input[i] << 1) | overflow;
      overflow := input[i] >> 7;
      i := i - 1;
    }
  }

  lemma MaskIsAll(x: bv8, r: bv8, y: bv8)
    ensures y ^ (r & (0 - (x >> 7))) == if x >> 7 != 0 then y ^ r else y
  {
  }

  // ----- the MAC -----

  ghost function Zero(bs: nat): Bytes {
    Repeat(0, bs)
  }

  ghost predicate Usable(c: Cipher) {
    c.Valid() && (c.bs == 16 || c.bs == 8)
  }

  ghost function K1(c: Cipher): (r: Bytes)
    requires Usable(c)
    ensures |r| == c.bs
  {
    Double(c.enc(Zero(c.bs)))
  }

  ghost function K2(c: Cipher): (r: Bytes)
    requires Usable(c)
    ensures |r| == c.bs
  {
    Double(K1(c))
  }

  /** cmac_pad: 10..0 fills the block. */
  ghost function Padded(bs: nat, m: Bytes): (r: Bytes)
    requires |m| < bs
    ensures |r| == bs
  {
    m + [0x80] + Repeat(0, bs - |m| - 1)
  }

  /** The last block, complete or padded, with its subkey. */
  ghost function LastBlock(c: Cipher, m: Bytes): (r: Bytes)
    requires Usable(c) && |m| <= c.bs
    ensures |r| == c.bs
  {
    if |m| == c.bs then Xor(m, K1(c)) else Xor(Padded(c.bs, m), K2(c))
  }

  /** One-shot CMAC from chaining value x: a block at a time while more than a block is left. */
  ghost function CmacFrom(c: Cipher, x: Bytes, m: Bytes): (r: Bytes)
    requires Usable(c) && |x| == c.bs
    ensures |r| == c.bs
    decreases |m|
  {
    if |m| <= c.bs then c.enc(Xor(LastBlock(c, m), x))
    else CmacFrom(c, c.enc(Xor(m[..c.bs], x)), m[c.bs..])
  }

  ghost function Cmac(c: Cipher, m: Bytes): Bytes
    requires Usable(c)
  {
    CmacFrom(c, Zero(c.bs), m)
  }

  /** What precedes the last block is only seen through the chaining value. */
  lemma {:induction false} CmacSplit(c: Cipher, x: Bytes, m: Bytes, last: Bytes)
    requires Usable(c) && |x| == c.bs && Whole(c.bs, |m|) && (m == [] || last != [])
    ensures CmacFrom(c, x, m + last) == CmacFrom(c, Chain(c, x, m), last)
    decreases |m|
  {
    if m == [] {
      assert m + last == last;
    } else {
      assert (m + last)[..c.bs] == m[..c.bs] && (m + last)[c.bs..] == m[c.bs..] + last;
      CmacSplit(c, c.enc(Xor(m[..c.bs], x)), m[c.bs..], last);
    }
  }

  /**
   Section 2.4 of RFC 4493, with the message given as whole blocks and what follows: a complete
   last block goes with the first subkey, a shorter or missing one is followed by a bit 1 and
   zeros and goes with the second; what comes out is encrypted on top of the chaining value.
   Section 2.3: the subkeys are the encrypted zero block times u and times u twice.
   */
  lemma CmacIsRfc(c: Cipher, m: Bytes, last: Bytes, k1: Bytes, k2: Bytes)
    requires Usable(c) && Whole(c.bs, |m|) && |last| <= c.bs && (m == [] || last != [])
    requires |k1| == c.bs && Bits(k1) == TimesU(c.bs, Bits(c.enc(Repeat(0, c.bs))))
    requires |k2| == c.bs && Bits(k2) == TimesU(c.bs, Bits(k1))
    ensures var x := Chain(c, Repeat(0, c.bs), m);
      Cmac(c, m + last) ==
        if |last| == c.bs then c.enc(Xor(Xor(last, k1), x))
        else c.enc(Xor(Xor(last + ([0x80] + Repeat(0, c.bs - |last| - 1)), k2), x))
  {
    SubkeysAre(c, k1, k2);
    CmacSplit(c, Zero(c.bs), m, last);
    if |last| < c.bs { Assoc(last, [0x80], Repeat(0, c.bs - |last| - 1)); }
  }

  lemma SubkeysAre(c: Cipher, k1: Bytes, k2: Bytes)
    requires Usable(c)
    requires |k1| == c.bs && Bits(k1) == TimesU(c.bs, Bits(c.enc(Repeat(0, c.bs))))
    requires |k2| == c.bs && Bits(k2) == TimesU(c.bs, Bits(k1))
    ensures k1 == K1(c) && k2 == K2(c)
  {
    DoubledIs(c.enc(Zero(c.bs)), k1);
    DoubledIs(k1, k2);
  }

  lemma DoubledIs(b: Bytes, d: Bytes)
    requires (|b| == 16 || |b| == 8) && |d| == |b| && Bits(d) == TimesU(|b|, Bits(b))
    ensures d == Double(b)
  {
    DoubleIsTimesU(b);
    SameBits(d, Double(b));
  }

  /** A block is determined by its bits. */
  lemma SameBits(a: Bytes, b: Bytes)
    requires |a| == |b| && Bits(a) == Bits(b)
    ensures a == b
  {
    forall i | 0 <= i < |a|
      ensures a[i] == b[i]
    {
      forall k | 0 <= k < 8
        ensures BitOf(a[i], k) == BitOf(b[i], k)
      {
        assert (8 * i + k) / 8 == i && (8 * i + k) % 8 == k;
        assert Bits(a)[8 * i + k] == Bits(b)[8 * i + k];
      }
      SameByte(a[i], b[i]);
    }
  }

  lemma SameByte(x: bv8, y: bv8)
    requires forall k :: 0 <= k < 8 ==> BitOf(x, k) == BitOf(y, k)
    ensures x == y
  {
    assert BitOf(x, 0) == BitOf(y, 0) && BitOf(x, 1) == BitOf(y, 1) && BitOf(x, 2) == BitOf(y, 2);
    assert BitOf(x, 3) == BitOf(y, 3) && BitOf(x, 4) == BitOf(y, 4) && BitOf(x, 5) == BitOf(y, 5);
    assert BitOf(x, 6) == BitOf(y, 6) && BitOf(x, 7) == BitOf(y, 7);
    AllBits(x, y);
  }

  lemma AllBits(x: bv8, y: bv8)
    requires (x & 0x80 != 0) == (y & 0x80 != 0) && (x & 0x40 != 0) == (y & 0x40 != 0)
    requires (x & 0x20 != 0) == (y & 0x20 != 0) && (x & 0x10 != 0) == (y & 0x10 != 0)
    requires (x & 0x08 != 0) == (y & 0x08 != 0) && (x & 0x04 != 0) == (y & 0x04 != 0)
    requires (x & 0x02 != 0) == (y & 0x02 != 0) && (x & 0x01 != 0) == (y & 0x01 != 0)
    ensures x == y
  {
  }

  function BlockCount(bs: nat, n: nat): nat
    requires bs > 0
  {
    (n + bs - 1) / bs
  }

  lemma BlocksStep(bs: nat, n: nat)
    requires bs > 0
    ensures n == 0 ==> BlockCount(bs, n) == 0
    ensures 0 < n <= bs ==> BlockCount(bs, n) == 1
    ensures n > bs ==> BlockCount(bs, n) == BlockCount(bs, n - bs) + 1 && BlockCount(bs, n - bs) >= 1
  {
    if n == 0 {
      Arith.DivModUnique(bs - 1, bs, 0, bs - 1);
    } else if n <= bs {
      Arith.DivModUnique(n + bs - 1, bs, 1, n - 1);
    } else {
      var q, r := (n - 1) / bs, (n - 1) % bs;
      assert n + bs - 1 == (q + 1) * bs + r by { assert (q + 1) * bs == q * bs + bs; }
      Arith.DivModUnique(n + bs - 1, bs, q + 1, r);
      assert n - bs + bs - 1 == n - 1;
    }
  }

  /** mbedtls_cmac_context_t. */
  class Context {
    const c: Cipher
    var state: Bytes
    const data: array<bv8>     // unprocessed_block
    var len: nat               // unprocessed_len

    constructor (c: Cipher)
      requires Usable(c)
      ensures this.c == c && fresh(data) && Absorbed([])
    {
      this.c, state := c, Repeat(0, c.bs);
      data, len := new bv8[16], 0;
      new;
      assert Whole(c.bs, 0) && Chain(c, state, []) == state;
    }

    ghost predicate Valid()
      reads this
    {
      Usable(c) && |state| == c.bs && data.Length == 16 && len <= c.bs
    }

    ghost predicate Chained(done: Bytes)
      reads this
    {
      Valid() && Whole(c.bs, |done|) && state == Chain(c, Zero(c.bs), done)
    }

    /** Of a nonempty message the last 1 to bs bytes are held back. */
    ghost predicate Absorbed(fed: Bytes)
      reads this, data
    {
      && Valid() && len <= |fed| && data[..len] == fed[|fed| - len..] && (fed != [] ==> len > 0)
      && Chained(fed[..|fed| - len])
    }

    /** mbedtls_cipher_cmac_update. */
    method Update(input: Bytes, ghost fed: Bytes)
      requires Absorbed(fed)
      modifies this`state, this`len, data
      ensures Absorbed(fed + input)
    {
      var left := input;
      ghost var done := fed[..|fed| - len];
      if len > 0 && |left| > c.bs - len {
        var n := c.bs - len;
        FillBlock(left[..n], done);
        done := done + (fed[|fed| - old(len)..] + left[..n]);
        left := left[n..];
      }
      assert done + data[..len] + left == fed + input;
      left, done := AbsorbBlocks(left, done);
      Hold(left, done);
    }

    method FillBlock(input: Bytes, ghost done: Bytes)
      requires Chained(done) && len + |input| == c.bs
      modifies this`state, this`len, data
      ensures len == 0 && Chained(done + (old(data[..len]) + input))
    {
      CopyInto(data, len, input);
      assert data[..c.bs] == data[..len] + data[len..c.bs];
      AbsorbBlock(data[..c.bs], done);
      len := 0;
    }

    method AbsorbBlock(b: Bytes, ghost done: Bytes)
      requires Chained(done) && |b| == c.bs
      modifies this`state
      ensures Chained(done + b)
    {
      ChainBlock(c, Zero(c.bs), done, b);
      state := c.enc(Xor(b, state));
    }

    /** Absorbs whole blocks as long as something is left after them. */
    method AbsorbBlocks(input: Bytes, ghost done0: Bytes) returns (left: Bytes, ghost done: Bytes)
      requires Chained(done0) && (len > 0 ==> |input| <= c.bs - len)
      modifies this`state
      ensures Chained(done) && len + |left| <= c.bs && (input != [] ==> left != [])
      ensures done + data[..len] + left == done0 + data[..len] + input
    {
      left, done := input, done0;
      var n, j := BlockCount(c.bs, |input|), 1;
      BlocksStep(c.bs, |input|);
      while j < n
        invariant Chained(done) && done + left == done0 + input && j >= 1
        invariant n > 0 ==> left != [] && BlockCount(c.bs, |left|) == n - j + 1
        invariant n <= 1 ==> left == input && done == done0
        decreases n - j
      {
        BlocksStep(c.bs, |left|);
        AbsorbBlock(left[..c.bs], done);
        SplitAt(left, c.bs);
        Assoc(done, left[..c.bs], left[c.bs..]);
        done, left := done + left[..c.bs], left[c.bs..];
        j := j + 1;
      }
      BlocksStep(c.bs, |left|);
      if len == 0 { assert done + data[..len] == done && done0 + data[..len] == done0; }
    }

    method Hold(left: Bytes, ghost done: Bytes)
      requires Chained(done) && len + |left| <= c.bs && (done != [] ==> len + |left| > 0)
      modifies this`len, data
      ensures Absorbed(done + old(data[..len]) + left)
    {
      if left != [] {
        CopyInto(data, len, left);
        assert data[..len + |left|] == data[..len] + data[len..len + |left|];
        len := len + |left|;
      }
      ghost var fed := done + old(data[..len]) + left;
      assert fed[..|fed| - len] == done && fed[|fed| - len..] == old(data[..len]) + left;
    }

    /** mbedtls_cipher_cmac_finish: the tag of everything fed, and a fresh state. */
    method Finish(ghost fed: Bytes) returns (tag: Bytes)
      requires Absorbed(fed)
      modifies this`state, this`len, data
      ensures tag == Cmac(c, fed) && Absorbed([])
    {
      var k1, k2 := GenerateSubkeys(c);
      var last;
      if len < c.bs {
        var padded := Pad(c.bs, data[..len]);
        last := Xor(padded, k2);
      } else {
        last := Xor(data[..c.bs], k1);
      }
      assert last == LastBlock(c, data[..len]);
      CmacSplit(c, Zero(c.bs), fed[..|fed| - len], fed[|fed| - len..]);
      SplitAt(fed, |fed| - len);
      tag := c.enc(Xor(last, state));
      Reset();
    }

    /** mbedtls_cipher_cmac_reset. */
    method Reset()
      requires Valid()
      modifies this`state, this`len, data
      ensures Absorbed([])
    {
      len := 0;
      for i := 0 to data.Length
        invariant len == 0
      {
        data[i] := 0;
      }
      state := seq(c.bs, _ => 0);
      assert state == Zero(c.bs);
    }
  }

  /** cmac_generate_subkeys. */
  method GenerateSubkeys(c: Cipher) returns (k1: Bytes, k2: Bytes)
    requires Usable(c)
    ensures k1 == K1(c) && k2 == K2(c)
  {
    var zero := seq(c.bs, _ => 0);
    assert zero == Zero(c.bs);
    var r1 := MultiplyByU(c.enc(zero));
    var r2 := MultiplyByU(r1.value);
    k1, k2 := r1.value, r2.value;
  }

  method Pad(bs: nat, last: Bytes) returns (padded: Bytes)
    requires |last| < bs
    ensures padded == Padded(bs, last)
  {
    var out := new bv8[bs];
    for j := 0 to bs
      invariant forall k :: 0 <= k < j ==> out[k] == Padded(bs, last)[k]
    {
      if j < |last| { out[j] := last[j]; } else if j == |last| { out[j] := 0x80; } else { out[j] := 0x00; }
    }
    padded := out[..];
  }

  /** Streaming equals one-shot, for every split into updates. */
  method CmacChunks(c: Cipher, chunks: seq<Bytes>) returns (tag: Bytes)
    requires Usable(c)
    ensures tag == Cmac(c, Flatten(chunks))
  {
    var ctx := new Context(c);
    ghost var fed := [];
    for i := 0 to |chunks|
      invariant ctx.c == c && fresh(ctx) && fresh(ctx.data)
      invariant fed == Flatten(chunks[..i]) && ctx.Absorbed(fed)
    {
      ctx.Update(chunks[i], fed);
      FlattenStep(chunks, i);
      fed := fed + chunks[i];
    }
    assert chunks[..|chunks|] == chunks;
    tag := ctx.Finish(fed);
  }
}
