/**
 Conversion to and from strings in radix 2 to 16: mpi_get_digit, mbedtls_mpi_read_string,
 mpi_write_hlp and mbedtls_mpi_write_string. Strings are without their terminator except where
 the output buffer is meant.
 */
module Radix {
  import opened Arith
  import opened Limbs
  import opened BigNum
  import opened Compare
  import opened AddSub
  import opened Multiply
  import opened Bits
  import opened Shift
  import opened IntDiv
  import opened Division
  import opened ModInt

  datatype RadixStatus = Done | BadRadix | InvalidCharacter | BufferTooSmall

  // ----- digits and the numbers they stand for -----

  /** mpi_get_digit: 255 for a character that is no digit. */
  function DigitOf(c: char): nat {
    if '0' <= c <= '9' then c as int - 0x30
    else if 'A' <= c <= 'F' then c as int - 0x37
    else if 'a' <= c <= 'f' then c as int - 0x57
    else 255
  }

  function CharOf(d: nat): char
    requires d < 16
  {
    if d < 10 then (d + 0x30) as char else (d + 0x37) as char
  }

  /** The digits are 0 to 9 and A to F; a to f are read as well, and nothing else is. */
  lemma DigitTable(c: char, d: nat)
    requires d < 16
    ensures CharOf(d) == "0123456789ABCDEF"[d]
    ensures DigitOf(c) == d <==> c == "0123456789ABCDEF"[d] || c == "0123456789abcdef"[d]
    ensures c !in "0123456789ABCDEF" && c !in "0123456789abcdef" ==> DigitOf(c) == 255
  {
    if DigitOf(c) < 16 {
      assert c == "0123456789ABCDEF"[DigitOf(c)] || c == "0123456789abcdef"[DigitOf(c)];
    }
  }

  lemma DigitBack(d: nat)
    requires d < 16
    ensures DigitOf(CharOf(d)) == d && CharOf(d) != '-'
  {
  }

  ghost predicate AllDigits(radix: nat, s: string) {
    forall i :: 0 <= i < |s| ==> DigitOf(s[i]) < radix
  }

  /** The number a string of digits denotes, the most significant first. */
  ghost function Number(radix: nat, s: string): nat {
    if s == [] then 0 else Number(radix, s[..|s| - 1]) * radix + DigitOf(s[|s| - 1])
  }

  ghost predicate Negative(s: string) {
    s != [] && s[0] == '-'
  }

  ghost function Body(s: string): string {
    if Negative(s) then s[1..] else s
  }

  /** What read_string makes of a well-formed string. */
  ghost function Parsed(radix: nat, s: string): int {
    if Negative(s) then 0 - Number(radix, Body(s)) else Number(radix, Body(s))
  }

  lemma NumberSnoc(radix: nat, s: string, c: char)
    ensures Number(radix, s + [c]) == Number(radix, s) * radix + DigitOf(c)
  {
    assert (s + [c])[..|s|] == s;
  }

  // ----- reading, radix below 16 -----

  /** X = X * radix + d, or - d when X is negative. */
  method PushDigit(X: Mpi, T: Mpi, radix: int, d: nat)
    requires X.Valid() && X != T && 2 <= radix <= 16 && d < radix
    modifies X, T
    ensures X.Valid() && X.s == old(X.s) && X.Mag() == old(X.Mag()) * radix + d
  {
    SmallRadix();
    ghost var m := X.Mag();
    MulInt(T, X, radix);
    NegMul(m, radix);
    if X.s == 1 { AddInt(X, T, d); } else { SubInt(X, T, d); }
  }

  lemma SmallRadix()
    ensures B >= 65536
  {
  }

  method ReadDigits(X: Mpi, radix: int, s: string) returns (ret: RadixStatus)
    requires X.Valid() && 2 <= radix < 16
    modifies X
    ensures ret == if AllDigits(radix, Body(s)) then Done else InvalidCharacter
    ensures ret == Done ==> X.Valid() && X.Value() == Parsed(radix, s)
  {
    var T := new Mpi();
    X.Lset(0);
    for i := 0 to |s|
      invariant ReadSoFar(X, radix, s, i)
    {
      var ok := ReadChar(X, T, radix, s, i);
      if !ok { return InvalidCharacter; }
    }
    assert DigitsIn(s, |s|) == Body(s);
    return Done;
  }

  ghost predicate ReadSoFar(X: Mpi, radix: nat, s: string, i: nat)
    requires i <= |s|
    reads X
  {
    && X.s == (if i > 0 && Negative(s) then -1 else 1)
    && AllDigits(radix, DigitsIn(s, i)) && X.Mag() == Number(radix, DigitsIn(s, i))
  }

  method ReadChar(X: Mpi, T: Mpi, radix: int, s: string, i: nat) returns (ok: bool)
    requires i < |s| && 2 <= radix < 16 && X != T && ReadSoFar(X, radix, s, i)
    modifies X, T
    ensures if ok then ReadSoFar(X, radix, s, i + 1) else !AllDigits(radix, Body(s))
  {
    NextDigit(radix, s, i);
    if i == 0 && s[i] == '-' {
      X.s := -1;
      return true;
    }
    var d := DigitOf(s[i]);
    if d >= radix { return false; }
    PushDigit(X, T, radix, d);
    return true;
  }

  /** The digits among the first i characters. */
  ghost function DigitsIn(s: string, i: nat): string
    requires i <= |s|
  {
    if i == 0 then [] else if s[0] == '-' then s[1..i] else s[..i]
  }

  lemma NextDigit(radix: nat, s: string, i: nat)
    requires i < |s|
    ensures i == 0 && s[i] == '-' ==> DigitsIn(s, i + 1) == DigitsIn(s, i)
    ensures !(i == 0 && s[i] == '-') ==> DigitsIn(s, i + 1) == DigitsIn(s, i) + [s[i]]
    ensures Number(radix, DigitsIn(s, i) + [s[i]]) == Number(radix, DigitsIn(s, i)) * radix + DigitOf(s[i])
    ensures !(i == 0 && s[i] == '-') && DigitOf(s[i]) >= radix ==> !AllDigits(radix, Body(s))
    ensures !(i == 0 && s[i] == '-') && DigitOf(s[i]) < radix && AllDigits(radix, DigitsIn(s, i)) ==>
      AllDigits(radix, DigitsIn(s, i + 1))
  {
    NumberSnoc(radix, DigitsIn(s, i), s[i]);
    if Negative(s) {
      if i > 0 { assert Body(s)[i - 1] == s[i]; }
    } else {
      assert Body(s)[i] == s[i];
    }
  }

  // ----- reading, radix 16 -----

  /** MPI_SIZE_T_MAX. */
  const SIZE_MAX: nat

  /** Hex digits in a limb. */
  function LimbHex(b: Limbs.Radix): (h: nat)
    ensures h > 0
  {
    LimbBits(b) / 4
  }

  lemma HexRadix()
    ensures Pow(16, LimbHex(B)) == B
  {
    RadixPow();
    assert Pow(2, 4) == 16 by { PowAdd(2, 2, 2); assert Pow(2, 2) == 4; }
    PowPow(2, 4, LimbHex(B));
    assert 4 * LimbHex(B) == LimbBits(B);
  }

  lemma PowPosition(x: int, h: nat, b: int, n: nat, k: nat, r: nat)
    requires x > 0 && r < h && Pow(x, h) == b && n == h * k
    ensures Pow(x, n + r) == Pow(x, r) * Pow(b, k) && Pow(x, r) > 0 && Pow(x, r) * x <= b
  {
    PowPow(x, h, k);
    PowAdd(x, n, r);
    NextPow(x, r, h);
  }

  lemma NextPow(x: int, r: nat, h: nat)
    requires x > 0 && r < h
    ensures Pow(x, r) > 0 && Pow(x, r) * x <= Pow(x, h)
  {
    PowMono(x, r + 1, h);
  }

  lemma LimbTop(p: seq<Limb>, k: nat, m: int)
    requires k < |p| && Val(p) < m * W(k)
    ensures p[k] < m
  {
    var w, v, rest := W(k), Val(p[k..]), Val(p[k + 1..]);
    ValSplit(p, k);
    ValHead(p, k);
    TopBelow(Val(p[..k]), w, v, m);
    MulLe(0, rest, B);
  }

  lemma TopBelow(lo: nat, w: int, v: int, m: int)
    requires w > 0 && lo + w * v < m * w
    ensures v < m
  {
    MulCancelLt(v, m, w);
  }

  lemma NibbleFits(x: int, d: int, m: int, b: int)
    requires 0 <= x < m && 0 <= d < 16 && m * 16 <= b
    ensures 0 <= d * m && x + d * m < b
  {
    MulLe(d, 15, m);
    MulLe(0, d, m);
  }

  /** Limb k takes hex digit r. */
  method PutNibble(X: Mpi, k: nat, m: int, d: nat)
    requires k < |X.p| && m > 0 && m * 16 <= B && Val(X.p) < m * W(k) && d < 16
    modifies X`p
    ensures |X.p| == |old(X.p)| && Val(X.p) == Val(old(X.p)) + d * (m * W(k))
  {
    LimbTop(X.p, k, m);
    NibbleFits(X.p[k], d, m, B);
    var x: Limb := X.p[k] + d * m;
    ValUpdate(X.p, k, x);
    MulAssoc(d, m, W(k));
    assert (x - X.p[k]) * W(k) == d * (m * W(k));
    X.p := X.p[k := x];
  }

  lemma ConsAlgebra(d: int, w: int, n: int, radix: int, e: int)
    ensures (d * w + n) * radix + e == d * (radix * w) + (n * radix + e)
  {
    MulDist(radix, d * w, n);
    MulAssoc(d, radix, w);
  }

  lemma {:induction false} NumberCons(radix: nat, c: char, t: string)
    ensures Number(radix, [c] + t) == DigitOf(c) * Pow(radix, |t|) + Number(radix, t)
  {
    if t == [] {
      assert [c] + t == [c] && [c][..0] == [];
    } else {
      var u, last := t[..|t| - 1], t[|t| - 1];
      assert ([c] + t)[..|t|] == [c] + u;
      NumberCons(radix, c, u);
      NumberSnoc(radix, [c] + u, last);
      assert [c] + t == ([c] + u) + [last];
      ConsAlgebra(DigitOf(c), Pow(radix, |u|), Number(radix, u), radix, DigitOf(last));
    }
  }

  lemma {:induction false} NumberBound(radix: nat, s: string)
    requires radix > 0 && AllDigits(radix, s)
    ensures Number(radix, s) < Pow(radix, |s|)
  {
    if s != [] {
      var u := s[..|s| - 1];
      NumberBound(radix, u);
      MulLe(Number(radix, u) + 1, Pow(radix, |u|), radix);
      MulDist(radix, Number(radix, u), 1);
    }
  }

  method ReadHex(X: Mpi, s: string) returns (ret: RadixStatus)
    requires X.Valid()
    modifies X
    ensures ret == if |s| > SIZE_MAX / 4 then BadRadix else if AllDigits(16, Body(s)) then Done else InvalidCharacter
    ensures ret == Done ==> X.Valid() && X.Value() == Parsed(16, s)
  {
    if |s| > SIZE_MAX / 4 { return BadRadix; }
    X.Grow(BitsToLimbs(4 * |s|));
    X.Lset(0);
    ret := HexLoop(X, s);
  }

  method HexLoop(X: Mpi, s: string) returns (ret: RadixStatus)
    requires X.s == 1 && Val(X.p) == 0 && |X.p| >= BitsToLimbs(4 * |s|)
    modifies X
    ensures ret == if AllDigits(16, Body(s)) then Done else InvalidCharacter
    ensures ret == Done ==> X.Valid() && X.Value() == Parsed(16, s)
  {
    var i, j := |s|, 0;
    assert s[i..] == [];
    while i > 0
      invariant 0 <= i <= |s| && j == |s| - i && X.s == 1 && |X.p| >= BitsToLimbs(4 * |s|)
      invariant AllDigits(16, s[i..]) && Val(X.p) == Number(16, s[i..])
    {
      if i == 1 && s[i - 1] == '-' {
        X.s := -1;
        return Done;
      }
      var d := DigitOf(s[i - 1]);
      HexDigit(s, i, j);
      if d >= 16 { return InvalidCharacter; }
      PutHex(X, j, d, |s|);
      i, j := i - 1, j + 1;
    }
    assert s[0..] == s && !Negative(s);
    return Done;
  }

  lemma HexDigit(s: string, i: nat, j: nat)
    requires 0 < i <= |s| && j == |s| - i && AllDigits(16, s[i..]) && !(i == 1 && s[0] == '-')
    ensures s[i - 1] in Body(s) && Number(16, s[i..]) < Pow(16, j)
    ensures Number(16, s[i - 1..]) == Number(16, s[i..]) + DigitOf(s[i - 1]) * Pow(16, j)
    ensures DigitOf(s[i - 1]) < 16 ==> AllDigits(16, s[i - 1..])
  {
    assert s[i - 1..] == [s[i - 1]] + s[i..];
    NumberBound(16, s[i..]);
    NumberCons(16, s[i - 1], s[i..]);
    if Negative(s) { assert Body(s)[i - 2] == s[i - 1]; }
  }

  /** Hex digit j is put into its limb. */
  method PutHex(X: Mpi, j: nat, d: nat, slen: nat)
    requires j < slen && |X.p| >= BitsToLimbs(4 * slen) && Val(X.p) < Pow(16, j) && d < 16
    modifies X`p
    ensures |X.p| == |old(X.p)| && Val(X.p) == Val(old(X.p)) + d * Pow(16, j)
  {
    var k, r := j / LimbHex(B), j % LimbHex(B);
    var m := Pow(16, r);
    HexPlace(j, k, r, m);
    LimbOf(j, slen);
    PutNibble(X, k, m, d);
  }

  /** Hex digit j is digit r of limb k. */
  lemma HexPlace(j: nat, k: nat, r: nat, m: int)
    requires k == j / LimbHex(B) && r == j % LimbHex(B) && m == Pow(16, r)
    ensures m > 0 && m * 16 <= B && Pow(16, j) == m * W(k)
  {
    HexRadix();
    Place(16, LimbHex(B), B, j, k, r);
  }

  lemma Place(x: int, h: nat, b: int, j: nat, k: nat, r: nat)
    requires x > 0 && h > 0 && Pow(x, h) == b && k == j / h && r == j % h
    ensures Pow(x, j) == Pow(x, r) * Pow(b, k) && Pow(x, r) > 0 && Pow(x, r) * x <= b
  {
    var n := h * k;
    DivModFacts(j, h);
    MulLe(0, k, h);
    PowPosition(x, h, b, n, k, r);
  }

  lemma LimbOf(j: nat, slen: nat)
    requires j < slen
    ensures j / LimbHex(B) < BitsToLimbs(4 * slen)
  {
  }

  /** mbedtls_mpi_read_string. */
  method ReadString(X: Mpi, radix: int, s: string) returns (ret: RadixStatus)
    requires X.Valid()
    modifies X
    ensures ret == BadRadix <==> radix < 2 || radix > 16 || (radix == 16 && |s| > SIZE_MAX / 4)
    ensures ret == Done <==> 2 <= radix <= 16 && (radix == 16 ==> |s| <= SIZE_MAX / 4) && AllDigits(radix, Body(s))
    ensures ret == Done || ret == BadRadix || ret == InvalidCharacter
    ensures ret == Done ==> X.Valid() && X.Value() == Parsed(radix, s)
    ensures radix < 2 || radix > 16 ==> X.s == old(X.s) && X.p == old(X.p)
  {
    if radix < 2 || radix > 16 { return BadRadix; }
    if radix == 16 { ret := ReadHex(X, s); } else { ret := ReadDigits(X, radix, s); }
  }

  // ----- writing, radix below 16 -----

  /** The digits of v without leading zeros, at least one. */
  ghost function Digits(radix: nat, v: nat): (r: string)
    requires 2 <= radix <= 16
    decreases v
  {
    var d := [CharOf(v % radix)];
    if v / radix == 0 then d else QuotientSmaller(radix, v); Digits(radix, v / radix) + d
  }

  lemma QuotientSmaller(radix: nat, v: nat)
    requires radix >= 2
    ensures v > 0 ==> v / radix < v
    ensures v == v / radix * radix + v % radix && 0 <= v % radix < radix && v / radix >= 0
  {
    DivModFacts(v, radix);
    if v / radix >= v && v > 0 { MulLe(v, v / radix, radix); MulLe(2, radix, v); }
    if v / radix < 0 { MulLe(v / radix, 0 - 1, radix); }
  }

  lemma LastDigit(radix: nat, v: nat, p: string)
    requires 2 <= radix <= 16
    ensures v / radix >= 0 && (v > 0 ==> v / radix < v) && 0 <= v % radix < radix
    ensures p + Digits(radix, v) ==
      (if v / radix == 0 then p else p + Digits(radix, v / radix)) + [CharOf(v % radix)]
  {
    QuotientSmaller(radix, v);
  }

  /** mpi_write_hlp. */
  method WriteHlp(X: Mpi, radix: int, p: string) returns (q: string)
    requires X.Valid() && X.s == 1 && X.p != [] && 2 <= radix <= 16
    modifies X
    ensures q == p + Digits(radix, old(X.Mag()))
    decreases X.Mag()
  {
    LastDigit(radix, X.Mag(), p);
    var r := TakeDigit(X, radix);
    var c := CmpInt(X, 0);
    q := p;
    if c != 0 { q := WriteHlp(X, radix, q); }
    q := q + [CharOf(r)];
  }

  /** The last digit is divided off. */
  method TakeDigit(X: Mpi, radix: int) returns (r: nat)
    requires X.Valid() && X.s == 1 && X.p != [] && 2 <= radix <= 16
    modifies X
    ensures X.Valid() && X.Value() == old(X.Mag()) / radix && r == old(X.Mag()) % radix < radix
    ensures X.Value() > 0 ==> X.s == 1 && X.p != []
  {
    RadixIsSafe(radix);
    DivModFacts(X.Mag(), radix);
    var ret;
    ret, r := ModInt.ModInt(X, radix);
    DivInt(X, radix);
  }

  lemma RadixIsSafe(radix: int)
    requires 2 <= radix <= 16
    ensures 0 - B < 2 * radix < B && Safe(radix)
  {
    HalfFacts();
  }

  /** mbedtls_mpi_div_int with X as dividend and quotient and no remainder. */
  method DivInt(X: Mpi, b: int)
    requires X.Valid() && X.s == 1 && 0 < 2 * b < B
    modifies X
    ensures X.Valid() && X.Value() == old(X.Mag()) / b && (X.Value() > 0 ==> X.s == 1 && X.p != [])
  {
    var D := SmallMpi(b);
    var _ := DivMpi(X, null, X, D);
  }

  // ----- writing, radix 16 -----

  ghost function Pair(c: nat): (r: string)
    requires c < 256
    ensures |r| == 2
  {
    [CharOf(c / 16), CharOf(c % 16)]
  }

  /** Two hex digits for each byte of v without leading zero bytes, at least one. */
  ghost function HexPairs(v: nat): string {
    if v < 256 then Pair(v) else HexPairs(v / 256) + Pair(v % 256)
  }

  /** Nothing is written before the first nonzero byte. */
  ghost function Shown(hi: nat): string {
    if hi == 0 then [] else HexPairs(hi)
  }

  lemma NextByte(hi: nat, c: nat)
    requires c < 256
    ensures hi > 0 || c > 0 ==> Shown(hi * 256 + c) == Shown(hi) + Pair(c)
    ensures hi == 0 ==> HexPairs(c) == Pair(c)
  {
    if hi > 0 {
      DivModUnique(hi * 256 + c, 256, hi, c);
    } else {
      assert Shown(hi) + Pair(c) == Pair(c);
    }
  }

  /** ciL. */
  function LimbBytes(b: Limbs.Radix): nat {
    LimbBits(b) / 8
  }

  lemma ByteRadix()
    ensures Pow(256, LimbBytes(B)) == B && LimbBytes(B) > 0
  {
    RadixPow();
    assert Pow(2, 8) == 256 by { PowAdd(2, 2, 2); PowAdd(2, 4, 4); assert Pow(2, 2) == 4; }
    PowPow(2, 8, LimbBytes(B));
    assert 8 * LimbBytes(B) == LimbBits(B);
  }

  /** The limb x without its low j bytes, and one byte more. */
  lemma ByteOfLimb(x: nat, j: nat)
    ensures Pow(256, j) > 0 && Pow(256, j + 1) > 0
    ensures x / Pow(256, j) == x / Pow(256, j + 1) * 256 + x / Pow(256, j) % 256 && 0 <= x / Pow(256, j) % 256 < 256
  {
    var m := Pow(256, j);
    DivDiv(x, m, 256);
    assert m * 256 == Pow(256, j + 1);
    DivModFacts(x / m, 256);
  }

  /** What has been written once everything down to `hi` has been looked at. */
  ghost predicate Written(q: string, k: bool, sign: string, hi: nat, last: bool) {
    if last then q == sign + HexPairs(hi) else q == sign + Shown(hi) && (k <==> hi > 0)
  }

  /** One byte: leading zeros are skipped, the last byte never. */
  method WriteByte(c: nat, last: bool, k0: bool, p: string, ghost sign: string, ghost hi: nat)
    returns (q: string, k: bool)
    requires c < 256 && Written(p, k0, sign, hi, false)
    ensures Written(q, k, sign, hi * 256 + c, last)
  {
    NextByte(hi, c);
    q, k := p, k0;
    if c == 0 && !k && !last { return; }
    q := q + [CharOf(c / 16)] + [CharOf(c % 16)];
    k := true;
    assert p + [CharOf(c / 16)] + [CharOf(c % 16)] == sign + (Shown(hi) + Pair(c));
  }

  /** The bytes of one limb, below the value `top` of the limbs above it. */
  method WriteLimb(x: Limb, last: bool, k0: bool, p: string, ghost sign: string, ghost top: nat)
    returns (q: string, k: bool)
    requires Written(p, k0, sign, top, false)
    ensures Written(q, k, sign, top * B + x, last)
  {
    q, k := p, k0;
    var j := LimbBytes(B);
    HighEnds(top, x);
    ghost var hi: nat := top;
    while j > 0
      invariant 0 <= j <= LimbBytes(B) && Written(q, k, sign, hi, last && j == 0)
      invariant hi == HighPart(top, x, j)
    {
      var c := x / Pow(256, j - 1) % 256;
      NextHighPart(top, x, j);
      q, k := WriteByte(c, last && j == 1, k, q, sign, hi);
      hi := hi * 256 + c;
      j := j - 1;
    }
  }

  /** The value above the low j bytes of limb x. */
  ghost function HighPart(top: nat, x: Limb, j: nat): (r: int)
    requires j <= LimbBytes(B)
  {
    top * Pow(256, LimbBytes(B) - j) + x / Pow(256, j)
  }

  lemma HighEnds(top: nat, x: Limb)
    ensures HighPart(top, x, LimbBytes(B)) == top && HighPart(top, x, 0) == top * B + x
  {
    ByteRadix();
    DivModUnique(x, B, 0, x);
    assert Pow(256, 0) == 1 && x / 1 == x;
  }

  lemma NextHighPart(top: nat, x: Limb, j: nat)
    requires 0 < j <= LimbBytes(B)
    ensures 0 <= x / Pow(256, j - 1) % 256 < 256
    ensures HighPart(top, x, j - 1) == HighPart(top, x, j) * 256 + x / Pow(256, j - 1) % 256
  {
    ByteOfLimb(x, j - 1);
    Shifted(top, Pow(256, LimbBytes(B) - j), x / Pow(256, j), x / Pow(256, j - 1) % 256);
  }

  lemma Shifted(top: int, w: int, y: int, c: int)
    ensures (top * w + y) * 256 + c == top * (256 * w) + (y * 256 + c)
  {
  }

  method WriteHex(X: Mpi, p: string) returns (q: string)
    requires X.p != []
    ensures q == p + HexPairs(X.Mag())
  {
    q := p;
    var i, k := |X.p|, false;
    assert X.p[i..] == [] && p + [] == p;
    ghost var hi: nat := 0;
    while i > 0
      invariant 0 <= i <= |X.p| && hi == Val(X.p[i..])
      invariant Written(q, k, p, hi, i == 0)
    {
      q, k := WriteLimb(X.p[i - 1], i == 1, k, q, p, hi);
      hi := NextValue(X.p, i, hi);
      i := i - 1;
    }
    assert X.p[0..] == X.p;
  }

  ghost function NextValue(p: seq<Limb>, i: nat, hi: nat): (r: nat)
    requires 0 < i <= |p| && hi == Val(p[i..])
    ensures r == hi * B + p[i - 1] == Val(p[i - 1..])
  {
    ValHead(p, i - 1);
    Val(p[i - 1..])
  }

  // ----- lengths -----

  lemma {:induction false} PowBaseMono(a: int, b: int, e: nat)
    requires 0 < a <= b
    ensures Pow(a, e) <= Pow(b, e)
  {
    if e > 0 {
      PowBaseMono(a, b, e - 1);
      MulLe(Pow(a, e - 1), Pow(b, e - 1), a);
      MulLe(a, b, Pow(b, e - 1));
    }
  }

  /** A number with L digits is at least radix^(L - 1). */
  lemma {:induction false} DigitsLow(radix: nat, v: nat)
    requires 2 <= radix <= 16
    ensures |Digits(radix, v)| >= 1 && (v > 0 ==> Pow(radix, |Digits(radix, v)| - 1) <= v)
    decreases v
  {
    QuotientSmaller(radix, v);
    if v / radix > 0 {
      DigitsLow(radix, v / radix);
      var q, k := v / radix, |Digits(radix, v / radix)| - 1;
      assert |Digits(radix, v)| == k + 2;
      MulLe(Pow(radix, k), q, radix);
      assert Pow(radix, k + 1) == radix * Pow(radix, k);
    }
  }

  lemma {:induction false} HexLow(v: nat) returns (m: nat)
    ensures m >= 1 && |HexPairs(v)| == 2 * m && (v > 0 ==> Pow(256, m - 1) <= v)
    decreases v
  {
    if v < 256 {
      m := 1;
    } else {
      m := HexLow(v / 256);
      m := m + 1;
      MulLe(Pow(256, m - 2), v / 256, 256);
      DivModFacts(v, 256);
    }
  }

  /** b^k <= v < 2^n for b = 2^e leaves k * e < n. */
  lemma FewerBits(e: nat, b: int, k: nat, v: nat, n: nat)
    requires b == Pow(2, e) && Pow(b, k) <= v && IsBitLen(v, n)
    ensures 0 <= e * k && (v > 0 ==> e * k < n)
  {
    MulLe(0, k, e);
    PowPow(2, e, k);
    if v > 0 && e * k >= n { PowMono(2, n, e * k); }
  }

  /** The number of bytes write_string asks for: sign, digits and terminator. */
  function Estimate(radix: int, bits: nat): nat {
    var n := if radix >= 16 then bits / 2 / 2 else if radix >= 4 then bits / 2 else bits;
    n + 3 + (n + 1) % 2
  }

  /** One character for each bit, two bits or four bits, and three or four more, so that the sum is even. */
  lemma EstimateIs(radix: int, bits: nat)
    requires 2 <= radix <= 16
    ensures var n := if radix < 4 then bits else if radix < 16 then bits / 2 else bits / 4;
      Estimate(radix, bits) % 2 == 0 && n + 3 <= Estimate(radix, bits) <= n + 4
  {
    assert bits / 2 / 2 == bits / 4;
  }

  /** The digits write_string produces. */
  ghost function Text(radix: nat, v: nat): string
    requires 2 <= radix <= 16
  {
    if radix == 16 then HexPairs(v) else Digits(radix, v)
  }

  /** The estimate always covers them. */
  lemma TextFits(radix: nat, v: nat, n: nat)
    requires 2 <= radix <= 16 && IsBitLen(v, n)
    ensures |Text(radix, v)| + 2 <= Estimate(radix, n)
  {
    if radix == 16 {
      HexFits(v, n);
    } else {
      var k := FewDigits(radix, v, n);
      EstimateDigits(radix, k, n);
    }
  }

  lemma HexFits(v: nat, n: nat)
    requires IsBitLen(v, n)
    ensures |HexPairs(v)| + 2 <= Estimate(16, n)
  {
    var m := HexLow(v);
    assert Pow(2, 8) == 256 by { PowAdd(2, 2, 2); PowAdd(2, 4, 4); assert Pow(2, 2) == 4; }
    if v > 0 { FewerBits(8, 256, m - 1, v, n); }
    EstimateHex(m, n);
  }

  lemma EstimateHex(m: nat, n: nat)
    requires m == 1 || 8 * (m - 1) < n
    ensures 2 * m + 2 <= Estimate(16, n)
  {
  }

  lemma FewDigits(radix: nat, v: nat, n: nat) returns (k: nat)
    requires 2 <= radix < 16 && IsBitLen(v, n)
    ensures |Digits(radix, v)| == k + 1 && (k == 0 || k < n) && (radix >= 4 ==> k == 0 || 2 * k < n)
  {
    DigitsLow(radix, v);
    k := |Digits(radix, v)| - 1;
    if v == 0 {
      DivModUnique(0, radix, 0, 0);
    } else if radix >= 4 {
      PowBaseMono(4, radix, k);
      assert Pow(2, 2) == 4;
      FewerBits(2, 4, k, v, n);
    } else {
      PowBaseMono(2, radix, k);
      assert Pow(2, 1) == 2;
      FewerBits(1, 2, k, v, n);
    }
  }

  lemma EstimateDigits(radix: int, k: nat, n: nat)
    requires 2 <= radix < 16 && (k == 0 || k < n) && (radix >= 4 ==> k == 0 || 2 * k < n)
    ensures k + 3 <= Estimate(radix, n)
  {
  }

  /** mbedtls_mpi_write_string into a buffer of buflen bytes; the output includes the terminator. */
  method WriteString(X: Mpi, radix: int, buflen: nat) returns (ret: RadixStatus, out: string, olen: nat, bits: nat)
    requires X.Valid() && X.p != []
    ensures IsBitLen(X.Mag(), bits)
    ensures ret == if radix < 2 || radix > 16 then BadRadix else if buflen < Estimate(radix, bits) then BufferTooSmall
      else Done
    ensures ret == BufferTooSmall ==> olen == Estimate(radix, bits) && out == []
    ensures ret == Done ==> out == SignedText(X.s, radix, X.Mag()) + ['\0'] && olen == |out| <= Estimate(radix, bits)
  {
    out, olen := [], 0;
    bits := BitLen(X);
    if radix < 2 || radix > 16 { return BadRadix, out, olen, bits; }
    var n := bits;
    if radix >= 4 { n := n / 2; }
    if radix >= 16 { n := n / 2; }
    n := n + 3 + (n + 1) % 2;
    if buflen < n { return BufferTooSmall, out, n, bits; }
    if X.s == -1 { out := out + ['-']; }
    if radix == 16 {
      out := WriteHex(X, out);
    } else {
      var T := new Mpi();
      T.Copy(X);
      if T.s == -1 { T.s := 1; }
      out := WriteHlp(T, radix, out);
    }
    TextFits(radix, X.Mag(), bits);
    out := out + ['\0'];
    return Done, out, |out|, bits;
  }

  ghost function SignedText(s: int, radix: nat, v: nat): string
    requires 2 <= radix <= 16
  {
    (if s == -1 then ['-'] else []) + Text(radix, v)
  }

  // ----- round trip -----

  lemma NumberPrefix(radix: nat, s: string, c: string)
    requires |c| == 2
    ensures Number(radix, s + c) == (Number(radix, s) * radix + DigitOf(c[0])) * radix + DigitOf(c[1])
  {
    assert s + c == s + [c[0]] + [c[1]];
    NumberSnoc(radix, s, c[0]);
    NumberSnoc(radix, s + [c[0]], c[1]);
  }

  lemma {:induction false} NumberOfDigits(radix: nat, v: nat)
    requires 2 <= radix <= 16
    ensures Number(radix, Digits(radix, v)) == v && AllDigits(radix, Digits(radix, v)) && !Negative(Digits(radix, v))
    decreases v
  {
    QuotientSmaller(radix, v);
    DigitBack(v % radix);
    var d := CharOf(v % radix);
    var q := v / radix;
    if q == 0 {
      assert Digits(radix, v) == [] + [d];
      NumberSnoc(radix, [], d);
    } else {
      NumberOfDigits(radix, q);
      DigitsLow(radix, q);
      NumberSnoc(radix, Digits(radix, q), d);
    }
  }

  lemma PairValue(c: nat, s: string)
    requires c < 256
    ensures Number(16, s + Pair(c)) == Number(16, s) * 256 + c && AllDigits(16, Pair(c)) && Pair(c)[0] != '-'
  {
    DigitBack(c / 16);
    DigitBack(c % 16);
    NumberPrefix(16, s, Pair(c));
  }

  lemma {:induction false} NumberOfHex(v: nat)
    ensures Number(16, HexPairs(v)) == v && AllDigits(16, HexPairs(v)) && |HexPairs(v)| > 0 && !Negative(HexPairs(v))
    decreases v
  {
    if v < 256 {
      PairValue(v, []);
      assert [] + Pair(v) == Pair(v);
    } else {
      NumberOfHex(v / 256);
      PairValue(v % 256, HexPairs(v / 256));
      DivModFacts(v, 256);
    }
  }

  /** Reading what was written gives back the value, in every radix. */
  lemma RoundTrip(s: int, radix: nat, v: nat)
    requires 2 <= radix <= 16 && (s == 1 || s == -1)
    ensures AllDigits(radix, Body(SignedText(s, radix, v)))
    ensures Parsed(radix, SignedText(s, radix, v)) == if s < 0 then 0 - v else v
  {
    if radix == 16 { NumberOfHex(v); } else { NumberOfDigits(radix, v); }
    var t := SignedText(s, radix, v);
    if s == -1 { assert t[1..] == Text(radix, v); } else { assert t == Text(radix, v); }
  }

  /** mbedtls_mpi_write_string and then mbedtls_mpi_read_string. */
  method WriteThenRead(X: Mpi, Y: Mpi, radix: int, buflen: nat) returns (ret: RadixStatus)
    requires X.Valid() && X.p != [] && Y.Valid() && X != Y && 2 <= radix <= 16 && buflen <= SIZE_MAX / 4
    modifies Y
    ensures ret == Done || ret == BufferTooSmall
    ensures ret == Done ==> Y.Valid() && Y.Value() == X.Value()
  {
    var out, olen, bits;
    ret, out, olen, bits := WriteString(X, radix, buflen);
    if ret != Done { return; }
    var s := out[..olen - 1];
    assert s == SignedText(X.s, radix, X.Mag());
    RoundTrip(X.s, radix, X.Mag());
    ret := ReadString(Y, radix, s);
  }
}
