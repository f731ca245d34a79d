/** Block formatting and counters of CCM (sections 2.2, 2.3 and 2.5 of RFC 3610). */
module CcmFormat {
  import opened Blocks
  import Arith

  // ----- numbers as bytes -----

  /** (unsigned char) n. */
  function Byte(n: nat): bv8 {
    if n == 0 then 0 else Byte(n - 1) + 1
  }

  /** The low k bytes of v, the most significant first. */
  function BE(v: nat, k: nat): (r: Bytes)
    ensures |r| == k
    decreases k
  {
    if k == 0 then [] else BE(v / 256, k - 1) + [Byte(v % 256)]
  }

  /** v shifted right by k bytes. */
  function Over(v: nat, k: nat): nat
    decreases k
  {
    if k == 0 then v else Over(v / 256, k - 1)
  }

  predicate Fits(v: nat, k: nat) {
    Over(v, k) == 0
  }

  lemma {:induction false} OverStep(v: nat, k: nat)
    ensures Over(v, k + 1) == Over(v, k) / 256
    ensures BE(v, k + 1) == [Byte(Over(v, k) % 256)] + BE(v, k)
    decreases k
  {
    if k > 0 { OverStep(v / 256, k - 1); }
  }

  lemma {:induction false} FitsMono(u: nat, v: nat, k: nat)
    requires u <= v && Fits(v, k)
    ensures Fits(u, k)
    decreases k
  {
    if k > 0 {
      assert u / 256 <= v / 256;
      FitsMono(u / 256, v / 256, k - 1);
    }
  }

  lemma SuccByte(x: bv8)
    ensures if x == 255 then x + 1 == 0 else x + 1 != 0 && (x + 1) as int == x as int + 1
  {
  }

  lemma {:induction false} ByteValue(n: nat)
    requires n < 256
    ensures Byte(n) as int == n && (n == 255 ==> Byte(n) == 255)
  {
    if n > 0 {
      ByteValue(n - 1);
      SuccByte(Byte(n - 1));
    }
  }

  lemma SameByte(m: nat, n: nat)
    requires m < 256 && n < 256 && Byte(m) == Byte(n)
    ensures m == n
  {
    ByteValue(m);
    ByteValue(n);
  }

  lemma {:induction false} BEInjective(u: nat, v: nat, k: nat)
    requires Fits(u, k) && Fits(v, k) && BE(u, k) == BE(v, k)
    ensures u == v
    decreases k
  {
    if k > 0 {
      var a, b := BE(u / 256, k - 1), BE(v / 256, k - 1);
      var x, y := Byte(u % 256), Byte(v % 256);
      assert (a + [x])[k - 1] == (b + [y])[k - 1] && (a + [x])[..k - 1] == (b + [y])[..k - 1];
      SameByte(u % 256, v % 256);
      BEInjective(u / 256, v / 256, k - 1);
    }
  }

  /** The number that bytes stand for, the most significant first. */
  ghost function Number(b: Bytes): nat {
    if b == [] then 0 else Number(b[..|b| - 1]) * 256 + b[|b| - 1] as int
  }

  lemma NumberSnoc(b: Bytes, x: bv8)
    ensures Number(b + [x]) == Number(b) * 256 + x as int
  {
    assert (b + [x])[..|b|] == b && (b + [x])[|b|] == x;
  }

  lemma NumberStep(v: nat, k: nat)
    requires k > 0
    ensures Number(BE(v, k)) == Number(BE(v / 256, k - 1)) * 256 + v % 256
    ensures Fits(v, k) <==> Fits(v / 256, k - 1)
  {
    NumberSnoc(BE(v / 256, k - 1), Byte(v % 256));
    ByteValue(v % 256);
  }

  /** BE writes a number; k bytes are enough exactly below 256^k. */
  lemma {:induction false} BEMeans(v: nat, k: nat)
    ensures Number(BE(v, k)) == v % Arith.Pow(256, k) && (Fits(v, k) <==> v < Arith.Pow(256, k))
    decreases k
  {
    if k == 0 {
      Arith.DivModUnique(v, 1, v, 0);
    } else {
      BEMeans(v / 256, k - 1);
      NumberStep(v, k);
      ModTimes(v, Arith.Pow(256, k - 1));
    }
  }

  lemma ModTimes(v: nat, p: int)
    requires p > 0
    ensures (v / 256 % p) * 256 + v % 256 == v % (256 * p) && (v / 256 < p <==> v < 256 * p)
  {
    var u := v / 256;
    Arith.DivModFacts(u, p);
    var q, r := u / p, u % p;
    assert v == q * (256 * p) + (r * 256 + v % 256) by {
      assert v == u * 256 + v % 256 && u == q * p + r;
      Arith.MulDist(q * p, r, 256);
      Arith.MulSwap(q, p, 256, 1);
      assert (q * p) * 256 == q * (256 * p);
    }
    Arith.DivModUnique(v, 256 * p, q, r * 256 + v % 256);
  }

  /** The counter increment: the bytes from the last on, until one does not become 0. */
  ghost function Inc(s: Bytes): (r: Bytes)
    ensures |r| == |s|
  {
    if s == [] then []
    else
      var n := |s| - 1;
      if s[n] + 1 != 0 then s[..n] + [s[n] + 1] else Inc(s[..n]) + [0]
  }

  lemma NextByte(n: nat)
    requires n < 256
    ensures if n == 255 then Byte(n) + 1 == 0 else Byte(n) + 1 != 0 && Byte(n) + 1 == Byte(n + 1)
  {
    ByteValue(n);
    SuccByte(Byte(n));
  }

  lemma IncLast(s: Bytes, x: bv8)
    ensures Inc(s + [x]) == if x + 1 != 0 then s + [x + 1] else Inc(s) + [0]
  {
    var t := s + [x];
    assert t[..|s|] == s && t[|s|] == x;
  }

  lemma DivNext(v: nat)
    ensures if v % 256 == 255 then (v + 1) / 256 == v / 256 + 1 && (v + 1) % 256 == 0
      else (v + 1) / 256 == v / 256 && (v + 1) % 256 == v % 256 + 1
  {
  }

  lemma {:induction false} IncIsNext(v: nat, k: nat)
    ensures Inc(BE(v, k)) == BE(v + 1, k)
    decreases k
  {
    if k > 0 {
      IncLast(BE(v / 256, k - 1), Byte(v % 256));
      NextByte(v % 256);
      DivNext(v);
      IncIsNext(v / 256, k - 1);
    }
  }

  // ----- formatting -----

  /** Bit 6: additional data present; bits 5..3: (t - 2) / 2; bits 2..0: q - 1. */
  function Flags(hasAdd: bool, tagLen: nat, q: nat): bv8
    requires tagLen >= 2 && q >= 1
  {
    ((if hasAdd then 1 else 0) << 6) | (Byte((tagLen - 2) / 2) << 3) | Byte(q - 1)
  }

  /** What ccm_auth_crypt accepts. */
  predicate Accepted(iv: Bytes, tagLen: nat, add: Bytes, n: nat) {
    4 <= tagLen <= 16 && tagLen % 2 == 0 && 7 <= |iv| <= 13 && |add| <= 0xFF00 && Fits(n, 15 - |iv|)
  }

  /** Zeros up to a block boundary. */
  ghost function PadZ(m: Bytes): (r: Bytes) {
    m + Zeros(|m|)
  }

  ghost function Zeros(n: nat): (r: Bytes)
    ensures |r| == (16 - n % 16) % 16 && forall i :: 0 <= i < |r| ==> r[i] == 0
  {
    Repeat(0, (16 - n % 16) % 16)
  }

  ghost function B0(iv: Bytes, tagLen: nat, hasAdd: bool, n: nat): (r: Bytes)
    requires 7 <= |iv| <= 13 && tagLen >= 2
    ensures |r| == 16
  {
    [Flags(hasAdd, tagLen, 15 - |iv|)] + iv + BE(n, 15 - |iv|)
  }

  ghost function AddBlocks(add: Bytes): Bytes {
    if add == [] then [] else PadZ(BE(|add|, 2) + add)
  }

  /** Everything the CBC-MAC runs over. */
  ghost function Format(iv: Bytes, tagLen: nat, add: Bytes, m: Bytes): Bytes
    requires 7 <= |iv| <= 13 && tagLen >= 2
  {
    B0(iv, tagLen, add != [], |m|) + AddBlocks(add) + PadZ(m)
  }

  lemma FlagsApart(a: bool, x: bv8, y: bv8, b: bool, u: bv8, v: bv8)
    requires x < 8 && y < 8 && u < 8 && v < 8
    requires ((if a then 1 else 0) << 6) | (x << 3) | y == ((if b then 1 else 0) << 6) | (u << 3) | v
    ensures a == b && x == u && y == v
  {
  }

  lemma SmallByte(n: nat)
    requires n < 8
    ensures Byte(n) < 8
  {
    ByteValue(n);
    Below8(Byte(n));
  }

  lemma Below8(x: bv8)
    requires x as int < 8
    ensures x < 8
  {
  }

  lemma FlagsInjective(a: bool, t: nat, q: nat, b: bool, u: nat, p: nat)
    requires 4 <= t <= 16 && t % 2 == 0 && 4 <= u <= 16 && u % 2 == 0 && 2 <= q <= 8 && 2 <= p <= 8
    requires Flags(a, t, q) == Flags(b, u, p)
    ensures a == b && t == u && q == p
  {
    SmallByte((t - 2) / 2);
    SmallByte((u - 2) / 2);
    SmallByte(q - 1);
    SmallByte(p - 1);
    FlagsApart(a, Byte((t - 2) / 2), Byte(q - 1), b, Byte((u - 2) / 2), Byte(p - 1));
    SameByte((t - 2) / 2, (u - 2) / 2);
    SameByte(q - 1, p - 1);
  }

  lemma PadZStep(m: Bytes)
    ensures m == [] ==> PadZ(m) == []
    ensures 0 < |m| <= 16 ==> PadZ(m) == m + Repeat(0, 16 - |m|)
    ensures |m| > 16 ==> PadZ(m) == m[..16] + PadZ(m[16..])
  {
    if |m| > 16 {
      ZerosAgain(|m|);
      SplitAt(m, 16);
      Assoc(m[..16], m[16..], Zeros(|m|));
    } else if |m| > 0 {
      ZerosLast(|m|);
    }
  }

  lemma ZerosAgain(n: nat)
    requires n >= 16
    ensures Zeros(n) == Zeros(n - 16)
  {
    assert n % 16 == (n - 16) % 16;
  }

  lemma ZerosLast(n: nat)
    requires 0 < n <= 16
    ensures Zeros(n) == Repeat(0, 16 - n)
  {
  }

  lemma PadZWhole(m: Bytes)
    ensures Whole(16, |PadZ(m)|)
  {
    WholeRest(16, |PadZ(m)|);
  }

  lemma FirstInjective(iv: Bytes, t: nat, add: Bytes, n: nat, iv2: Bytes, t2: nat, add2: Bytes, n2: nat)
    requires Accepted(iv, t, add, n) && Accepted(iv2, t2, add2, n2)
    requires B0(iv, t, add != [], n) == B0(iv2, t2, add2 != [], n2)
    ensures iv == iv2 && t == t2 && (add == [] <==> add2 == []) && n == n2
  {
    var b, b2 := B0(iv, t, add != [], n), B0(iv2, t2, add2 != [], n2);
    var q := 15 - |iv|;
    assert b[0] == Flags(add != [], t, q) && b2[0] == Flags(add2 != [], t2, 15 - |iv2|);
    FlagsInjective(add != [], t, q, add2 != [], t2, 15 - |iv2|);
    assert b[1..16 - q] == iv && b2[1..16 - q] == iv2;
    assert b[16 - q..] == BE(n, q) && b2[16 - q..] == BE(n2, q);
    BEInjective(n, n2, q);
  }

  lemma Prefixes(a: Bytes, x: Bytes, b: Bytes, y: Bytes)
    requires |a| == |b| && a + x <= b + y
    ensures a == b && x <= y
  {
    assert (a + x)[..|a|] == a && (b + y)[..|a|] == b;
    assert (a + x)[|a|..] == x && (b + y)[|a|..][..|x|] == x;
  }

  lemma AddShape(add: Bytes, x: Bytes, h: Bytes, z: Bytes)
    requires add != [] && h == BE(|add|, 2) && z == Zeros(|h + add|)
    ensures AddBlocks(add) + x == h + (add + (z + x))
  {
    assert AddBlocks(add) == (h + add) + z;
    Assoc(h + add, z, x);
    Assoc(h, add, z + x);
  }

  lemma AddInjective(add: Bytes, x: Bytes, add2: Bytes, y: Bytes)
    requires |add| <= 0xFF00 && |add2| <= 0xFF00 && (add == [] <==> add2 == [])
    requires AddBlocks(add) + x <= AddBlocks(add2) + y
    ensures add == add2 && x <= y
  {
    if add == [] {
      assert AddBlocks(add) + x == x && AddBlocks(add2) + y == y;
    } else {
      var h, h2 := BE(|add|, 2), BE(|add2|, 2);
      var z, z2 := Zeros(|h + add|), Zeros(|h2 + add2|);
      AddShape(add, x, h, z);
      AddShape(add2, y, h2, z2);
      Prefixes(h, add + (z + x), h2, add2 + (z2 + y));
      FitsTwo(|add|);
      FitsTwo(|add2|);
      BEInjective(|add|, |add2|, 2);
      Prefixes(add, z + x, add2, z2 + y);
      Prefixes(z, x, z2, y);
    }
  }

  lemma FitsTwo(n: nat)
    requires n < 0x10000
    ensures Fits(n, 2)
  {
    assert Over(n, 2) == Over(n / 256, 1) == Over(n / 256 / 256, 0);
  }

  /** No formatted input is a prefix of another one; in particular formatting is injective. */
  lemma PrefixFree(iv: Bytes, t: nat, add: Bytes, m: Bytes, iv2: Bytes, t2: nat, add2: Bytes, m2: Bytes)
    requires Accepted(iv, t, add, |m|) && Accepted(iv2, t2, add2, |m2|)
    requires Format(iv, t, add, m) <= Format(iv2, t2, add2, m2)
    ensures iv == iv2 && t == t2 && add == add2 && m == m2
  {
    var b, b2 := B0(iv, t, add != [], |m|), B0(iv2, t2, add2 != [], |m2|);
    Assoc(b, AddBlocks(add), PadZ(m));
    Assoc(b2, AddBlocks(add2), PadZ(m2));
    Prefixes(b, AddBlocks(add) + PadZ(m), b2, AddBlocks(add2) + PadZ(m2));
    FirstInjective(iv, t, add, |m|, iv2, t2, add2, |m2|);
    AddInjective(add, PadZ(m), add2, PadZ(m2));
    var z := Zeros(|m|);
    Prefixes(m, z, m2, z);
  }

  // ----- against the standard -----

  /**
   The first block of section 2.2 of RFC 3610: 64 * Adata + 8 * M' + L', where M' = (M - 2) / 2 and
   L' = L - 1; then the nonce; then the length of the message, the most significant byte first.
   */
  ghost function RfcFlags(hasAdd: bool, tagLen: nat, q: nat): nat
    requires tagLen >= 2 && q >= 1
  {
    (if hasAdd then 64 else 0) + 8 * ((tagLen - 2) / 2) + (q - 1)
  }

  ghost function RfcFirst(iv: Bytes, tagLen: nat, hasAdd: bool, n: nat): (r: Bytes)
    requires 7 <= |iv| <= 13 && tagLen >= 2
    ensures |r| == 16
  {
    [Byte(RfcFlags(hasAdd, tagLen, 15 - |iv|))] + iv + BE(n, 15 - |iv|)
  }

  lemma {:induction false} ByteSum(m: nat, n: nat)
    ensures Byte(m + n) == Byte(m) + Byte(n)
  {
    if n > 0 { ByteSum(m, n - 1); }
  }

  lemma ByteTimes8(n: nat)
    ensures Byte(8 * n) == Byte(n) * 8
  {
    ByteSum(n, n);
    ByteSum(2 * n, 2 * n);
    ByteSum(4 * n, 4 * n);
    assert Byte(2 * n) == Byte(n + n) && Byte(4 * n) == Byte(2 * n + 2 * n) && Byte(8 * n) == Byte(4 * n + 4 * n);
    Doublings(Byte(n));
  }

  lemma Doublings(x: bv8)
    ensures (x + x + (x + x)) + (x + x + (x + x)) == x * 8
  {
  }

  lemma FieldsAdd(a: bool, x: bv8, y: bv8)
    requires x < 8 && y < 8
    ensures ((if a then 1 else 0) << 6) | (x << 3) | y == (if a then 64 else 0) + x * 8 + y
  {
  }

  lemma Byte64()
    ensures Byte(64) == 64
  {
    assert Byte(8) == 8 by { ByteTimes8(1); }
    ByteTimes8(8);
  }

  /** The first byte the code puts together is the one of the standard, for every tag length and nonce accepted. */
  lemma FlagsAreRfc(hasAdd: bool, tagLen: nat, q: nat)
    requires 2 <= tagLen <= 16 && 1 <= q <= 8
    ensures Flags(hasAdd, tagLen, q) == Byte(RfcFlags(hasAdd, tagLen, q))
    ensures Flags(hasAdd, tagLen, q) as int == RfcFlags(hasAdd, tagLen, q)
  {
    var x, y := (tagLen - 2) / 2, q - 1;
    SmallByte(x);
    SmallByte(y);
    FieldsAdd(hasAdd, Byte(x), Byte(y));
    ByteTimes8(x);
    Byte64();
    ByteSum(if hasAdd then 64 else 0, 8 * x);
    ByteSum((if hasAdd then 64 else 0) + 8 * x, y);
    ByteValue(RfcFlags(hasAdd, tagLen, q));
  }

  /** The fields of the first block, one by one. */
  ghost predicate StartsMac(b: Bytes, iv: Bytes, tagLen: nat, hasAdd: bool, n: nat)
    requires 7 <= |iv| <= 13 && tagLen >= 2
  {
    && |b| == 16 && b[0] as int == (if hasAdd then 64 else 0) + 8 * ((tagLen - 2) / 2) + (14 - |iv|)
    && b[1..1 + |iv|] == iv && b[1 + |iv|..] == BE(n, 15 - |iv|)
  }

  lemma FirstStartsMac(iv: Bytes, tagLen: nat, hasAdd: bool, n: nat)
    requires 7 <= |iv| <= 13 && 2 <= tagLen <= 16
    ensures StartsMac(B0(iv, tagLen, hasAdd, n), iv, tagLen, hasAdd, n)
    ensures B0(iv, tagLen, hasAdd, n) == RfcFirst(iv, tagLen, hasAdd, n)
  {
    FlagsAreRfc(hasAdd, tagLen, 15 - |iv|);
  }

  /** The length of the additional data as section 2.2 of RFC 3610 has it: two, six or ten octets. */
  ghost function RfcLength(n: nat): Bytes {
    if n < 0xFF00 then BE(n, 2) else if n < 0x1_0000_0000 then [0xFF, 0xFE] + BE(n, 4) else [0xFF, 0xFF] + BE(n, 8)
  }

  ghost function RfcAddBlocks(add: Bytes): Bytes {
    if add == [] then [] else PadZ(RfcLength(|add|) + add)
  }

  /** The standard's input of the CBC-MAC. */
  ghost function RfcFormat(iv: Bytes, tagLen: nat, add: Bytes, m: Bytes): Bytes
    requires 7 <= |iv| <= 13 && tagLen >= 2
  {
    RfcFirst(iv, tagLen, add != [], |m|) + RfcAddBlocks(add) + PadZ(m)
  }

  /** The code writes a zero where the standard has FE. */
  lemma LongLength(n: nat)
    requires n == 0xFF00
    ensures BE(n, 2)[1] == 0 && RfcLength(n)[1] == 0xFE
  {
    assert BE(n, 2) == BE(n / 256, 1) + [Byte(n % 256)] && n % 256 == 0;
  }

  lemma AddBlocksStart(add: Bytes)
    requires add != []
    ensures AddBlocks(add)[..2] == BE(|add|, 2) && |RfcAddBlocks(add)| >= 2 &&
      RfcAddBlocks(add)[..2] == RfcLength(|add|)[..2]
  {
  }

  /** Among the lengths accepted, the additional data is formatted as in RFC 3610 exactly below 0xFF00 bytes. */
  lemma AddBlocksAreRfc(add: Bytes)
    requires |add| <= 0xFF00
    ensures AddBlocks(add) == RfcAddBlocks(add) <==> |add| < 0xFF00
  {
    if |add| == 0xFF00 {
      AddBlocksStart(add);
      LongLength(|add|);
      assert AddBlocks(add)[..2][1] != RfcAddBlocks(add)[..2][1];
    }
  }

  /** So is everything the MAC runs over. */
  lemma FormatIsRfc(iv: Bytes, tagLen: nat, add: Bytes, m: Bytes)
    requires Accepted(iv, tagLen, add, |m|)
    ensures Format(iv, tagLen, add, m) == RfcFormat(iv, tagLen, add, m) <==> |add| < 0xFF00
  {
    AddBlocksAreRfc(add);
    FirstStartsMac(iv, tagLen, add != [], |m|);
    if |add| == 0xFF00 {
      var b := B0(iv, tagLen, add != [], |m|);
      AddBlocksStart(add);
      LongLength(|add|);
      assert Format(iv, tagLen, add, m)[17] == AddBlocks(add)[..2][1];
      assert RfcFormat(iv, tagLen, add, m)[17] == RfcAddBlocks(add)[..2][1];
    }
  }

  /** An input that is accepted although the documented bound excludes it, and formatted in another way. */
  lemma LongestAddIsNotRfc(iv: Bytes, tagLen: nat, m: Bytes)
    requires Accepted(iv, tagLen, [], |m|)
    ensures var add := Repeat(0, 0xFF00);
      Accepted(iv, tagLen, add, |m|) && Format(iv, tagLen, add, m) != RfcFormat(iv, tagLen, add, m)
  {
    FormatIsRfc(iv, tagLen, Repeat(0, 0xFF00), m);
  }

  // ----- counters -----

  /** Counter block i of a nonce. */
  ghost function Ctr(iv: Bytes, i: nat): (r: Bytes)
    requires 7 <= |iv| <= 13
    ensures |r| == 16
  {
    [Byte(14 - |iv|)] + iv + BE(i, 15 - |iv|)
  }

  /** Section 2.3 of RFC 3610: the flags are L - 1 alone, then the nonce, then the number of the block. */
  ghost predicate IsCounter(b: Bytes, iv: Bytes, i: nat)
    requires 7 <= |iv| <= 13
  {
    |b| == 16 && b[0] as int == 14 - |iv| && b[1..1 + |iv|] == iv && b[1 + |iv|..] == BE(i, 15 - |iv|)
  }

  lemma CtrMeans(iv: Bytes, i: nat)
    requires 7 <= |iv| <= 13
    ensures IsCounter(Ctr(iv, i), iv, i)
  {
    ByteValue(14 - |iv|);
  }

  /** Block 0 masks the tag, block i > 0 encrypts the i-th 16 bytes. */
  ghost function CtrCrypt(c: Cipher, iv: Bytes, i: nat, src: Bytes): (r: Bytes)
    requires c.Valid() && c.bs == 16 && 7 <= |iv| <= 13
    ensures |r| == |src|
    decreases |src|
  {
    if src == [] then []
    else
      var n := if |src| > 16 then 16 else |src|;
      Xor(src[..n], c.enc(Ctr(iv, i))[..n]) + CtrCrypt(c, iv, i + 1, src[n..])
  }

  /** The encrypted blocks one after the other. */
  ghost function KeyStream(c: Cipher, a: seq<Bytes>): (r: Bytes)
    requires c.Valid() && c.bs == 16 && forall i :: 0 <= i < |a| ==> |a[i]| == 16
    ensures |r| == 16 * |a|
  {
    if a == [] then [] else c.enc(a[0]) + KeyStream(c, a[1..])
  }

  ghost predicate AreCounters(a: seq<Bytes>, iv: Bytes, i: nat)
    requires 7 <= |iv| <= 13
  {
    forall j :: 0 <= j < |a| ==> IsCounter(a[j], iv, i + j)
  }

  /** Section 2.3 of RFC 3610: the message is masked by the first octets of the key stream. */
  lemma {:induction false} CtrIsStream(c: Cipher, iv: Bytes, i: nat, src: Bytes, a: seq<Bytes>)
    requires c.Valid() && c.bs == 16 && 7 <= |iv| <= 13 && AreCounters(a, iv, i) && 16 * |a| >= |src|
    ensures CtrCrypt(c, iv, i, src) == Xor(src, KeyStream(c, a)[..|src|])
    decreases |src|
  {
    if src != [] {
      var n := if |src| > 16 then 16 else |src|;
      CtrMeans(iv, i);
      assert IsCounter(a[0], iv, i + 0);
      SameCounter(a[0], Ctr(iv, i), iv, i);
      LaterCounters(a, iv, i);
      CtrIsStream(c, iv, i + 1, src[n..], a[1..]);
      StreamSplit(src, n, c.enc(a[0]), KeyStream(c, a[1..]));
    }
  }

  lemma LaterCounters(a: seq<Bytes>, iv: Bytes, i: nat)
    requires 7 <= |iv| <= 13 && a != [] && AreCounters(a, iv, i)
    ensures AreCounters(a[1..], iv, i + 1)
  {
    forall j | 0 <= j < |a| - 1
      ensures IsCounter(a[1..][j], iv, i + 1 + j)
    {
      assert IsCounter(a[j + 1], iv, i + (j + 1));
    }
  }

  /** The first block of the stream, cut off, and the rest. */
  lemma StreamSplit(src: Bytes, n: nat, b: Bytes, rest: Bytes)
    requires |b| == 16 && n == (if |src| > 16 then 16 else |src|) && |src| <= 16 + |rest|
    ensures Xor(src, (b + rest)[..|src|]) == Xor(src[..n], b[..n]) + Xor(src[n..], rest[..|src| - n])
  {
  }

  lemma SameCounter(a: Bytes, b: Bytes, iv: Bytes, i: nat)
    requires 7 <= |iv| <= 13 && IsCounter(a, iv, i) && IsCounter(b, iv, i)
    ensures a == b
  {
    SameNumber(a[0], b[0]);
    assert a == [a[0]] + a[1..1 + |iv|] + a[1 + |iv|..] && b == [b[0]] + b[1..1 + |iv|] + b[1 + |iv|..];
  }

  lemma SameNumber(x: bv8, y: bv8)
    requires x as int == y as int
    ensures x == y
  {
  }

  lemma {:induction false} CtrTwice(c: Cipher, iv: Bytes, i: nat, src: Bytes)
    requires c.Valid() && c.bs == 16 && 7 <= |iv| <= 13
    ensures CtrCrypt(c, iv, i, CtrCrypt(c, iv, i, src)) == src
    decreases |src|
  {
    if src != [] {
      var n := if |src| > 16 then 16 else |src|;
      var k := c.enc(Ctr(iv, i))[..n];
      var x, rest := Xor(src[..n], k), CtrCrypt(c, iv, i + 1, src[n..]);
      assert CtrCrypt(c, iv, i, src) == x + rest && (x + rest)[..n] == x && (x + rest)[n..] == rest;
      XorTwice(src[..n], k);
      CtrTwice(c, iv, i + 1, src[n..]);
      SplitAt(src, n);
    }
  }

  /** The counter blocks of one message, block 0 included, are pairwise distinct. */
  lemma CountersDistinct(iv: Bytes, n: nat, i: nat, j: nat)
    requires 7 <= |iv| <= 13 && Fits(n, 15 - |iv|) && i <= (n + 15) / 16 && j <= (n + 15) / 16 && i != j
    ensures Ctr(iv, i) != Ctr(iv, j)
  {
    var q := 15 - |iv|;
    FitsMono(i, n, q);
    FitsMono(j, n, q);
    assert Ctr(iv, i)[16 - q..] == BE(i, q) && Ctr(iv, j)[16 - q..] == BE(j, q);
    if BE(i, q) == BE(j, q) { BEInjective(i, j, q); }
  }

  /** No counter block, of whatever nonce, is the first block of a MAC computation. */
  lemma CounterIsNotFirst(iv: Bytes, i: nat, iv2: Bytes, t: nat, hasAdd: bool, n: nat)
    requires 7 <= |iv| <= 13 && 7 <= |iv2| <= 13 && 4 <= t <= 16
    ensures Ctr(iv, i) != B0(iv2, t, hasAdd, n)
  {
    SmallByte((t - 2) / 2);
    SmallByte(14 - |iv|);
    SmallByte(14 - |iv2|);
    ByteValue((t - 2) / 2);
    FlagsNotSmall(hasAdd, Byte((t - 2) / 2), Byte(14 - |iv2|));
    assert Ctr(iv, i)[0] == Byte(14 - |iv|) && B0(iv2, t, hasAdd, n)[0] == Flags(hasAdd, t, 15 - |iv2|);
  }

  lemma FlagsNotSmall(a: bool, x: bv8, y: bv8)
    requires 0 < x < 8 && y < 8
    ensures ((if a then 1 else 0) << 6) | (x << 3) | y >= 8
  {
  }
}
