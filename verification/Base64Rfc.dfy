/** Base64 as section 5.2 of RFC 1521 describes it: an alphabet, and bits taken six at a time. */
module Base64Rfc {
  import opened Base64
  import Arith

  const UPPER: string := "ABCDEFGHIJKLMNOPQRSTUVWXYZ"
  const LOWER: string := "abcdefghijklmnopqrstuvwxyz"
  const ALPHABET: string := UPPER + LOWER + "0123456789+/"

  lemma Upper(d: nat)
    requires d < 26
    ensures UPPER[d] as int == EncMap(d)
  {
  }

  lemma Lower(d: nat)
    requires 26 <= d < 52
    ensures LOWER[d - 26] as int == EncMap(d)
  {
  }

  lemma Numeral(d: nat)
    requires 52 <= d < 64
    ensures "0123456789+/"[d - 52] as int == EncMap(d)
  {
  }

  /** The encoder's table is the alphabet, and the decoder's its inverse, with '=' as 64. */
  lemma TablesAreAlphabet(d: nat, c: Byte)
    requires d < 64
    ensures EncMap(d) == ALPHABET[d] as int
    ensures DecMap(c) == d <==> c == ALPHABET[d] as int
    ensures DecMap(c) == 64 <==> c == '=' as int
    ensures DecMap(c) <= 64 || DecMap(c) == 127
  {
    if d < 26 { Upper(d); } else if d < 52 { Lower(d); } else { Numeral(d); }
    DecOfEnc(d, c);
  }

  lemma DecOfEnc(d: nat, c: Byte)
    requires d < 64
    ensures DecMap(c) == d <==> c == EncMap(d)
  {
  }

  // ---------- Bits ----------

  /** The low k bits of x, the most significant first. */
  ghost function BitsOf(x: nat, k: nat): (r: seq<bool>)
    ensures |r| == k
  {
    if k == 0 then [] else BitsOf(x / 2, k - 1) + [x % 2 == 1]
  }

  /** The bits of numbers of k bits each. */
  ghost function AllBits(xs: seq<nat>, k: nat): seq<bool> {
    if xs == [] then [] else BitsOf(xs[0], k) + AllBits(xs[1..], k)
  }

  lemma {:induction false} BitsJoin(x: nat, y: nat, k: nat, j: nat)
    requires y < Arith.Pow(2, j)
    ensures BitsOf(x * Arith.Pow(2, j) + y, k + j) == BitsOf(x, k) + BitsOf(y, j)
    decreases j
  {
    if j == 0 {
      assert BitsOf(y, 0) == [];
    } else {
      var p := Arith.Pow(2, j - 1);
      assert x * (2 * p) == 2 * (x * p) by { Arith.MulSwap(x, 2, 1, p); }
      var v := x * (2 * p) + y;
      assert v / 2 == x * p + y / 2 && v % 2 == y % 2;
      BitsJoin(x, y / 2, k, j - 1);
      assert BitsOf(v, k + j) == BitsOf(v / 2, k + j - 1) + [v % 2 == 1];
    }
  }

  lemma Pows()
    ensures Arith.Pow(2, 2) == 4 && Arith.Pow(2, 4) == 16 && Arith.Pow(2, 6) == 64
  {
    assert Arith.Pow(2, 1) == 2;
    Arith.PowAdd(2, 2, 2);
    Arith.PowAdd(2, 4, 2);
  }

  lemma SixTwo(a: Byte)
    ensures BitsOf(a, 8) == BitsOf(a / 4, 6) + BitsOf(a % 4, 2)
  {
    Pows();
    BitsJoin(a / 4, a % 4, 6, 2);
  }

  lemma FourFour(a: Byte)
    ensures BitsOf(a, 8) == BitsOf(a / 16, 4) + BitsOf(a % 16, 4)
  {
    Pows();
    BitsJoin(a / 16, a % 16, 4, 4);
  }

  lemma TwoSix(a: Byte)
    ensures BitsOf(a, 8) == BitsOf(a / 64, 2) + BitsOf(a % 64, 6)
  {
    Pows();
    BitsJoin(a / 64, a % 64, 2, 6);
  }

  /** A digit of two and four bits, and one of four and two. */
  lemma HighDigit(x: nat, y: nat, d: nat)
    requires x < 4 && y < 16 && d == x * 16 + y
    ensures BitsOf(d, 6) == BitsOf(x, 2) + BitsOf(y, 4)
  {
    Pows();
    BitsJoin(x, y, 2, 4);
  }

  lemma LowDigit(x: nat, y: nat, d: nat)
    requires x < 16 && y < 4 && d == x * 4 + y
    ensures BitsOf(d, 6) == BitsOf(x, 4) + BitsOf(y, 2)
  {
    Pows();
    BitsJoin(x, y, 4, 2);
  }

  lemma SecondDigit(a: Byte, b: Byte)
    ensures BitsOf(a % 4 * 16 + b / 16, 6) == BitsOf(a % 4, 2) + BitsOf(b / 16, 4)
  {
    HighDigit(a % 4, b / 16, a % 4 * 16 + b / 16);
  }

  lemma ThirdDigit(b: Byte, c: Byte)
    ensures BitsOf(b % 16 * 4 + c / 64, 6) == BitsOf(b % 16, 4) + BitsOf(c / 64, 2)
  {
    LowDigit(b % 16, c / 64, b % 16 * 4 + c / 64);
  }

  /** How three bytes share their bits among four digits. */
  lemma GroupBits(a: Byte, b: Byte, c: Byte)
    ensures AllBits(FourDigits(a, b, c), 6) == AllBits([a, b, c], 8)
  {
    SixTwo(a);
    FourFour(b);
    TwoSix(c);
    SecondDigit(a, b);
    ThirdDigit(b, c);
    SharedBits(FourDigits(a, b, c), [a, b, c], BitsOf(a / 4, 6), BitsOf(a % 4, 2), BitsOf(b / 16, 4), BitsOf(b % 16, 4),
      BitsOf(c / 64, 2), BitsOf(c % 64, 6));
  }

  ghost function FourDigits(a: Byte, b: Byte, c: Byte): (r: seq<nat>)
    ensures |r| == 4 && Digits(r)
  {
    [a / 4, a % 4 * 16 + b / 16, b % 16 * 4 + c / 64, c % 64]
  }

  /** Six pieces make up four digits and three bytes. */
  lemma SharedBits(ds: seq<nat>, bs: seq<nat>, u: seq<bool>, v: seq<bool>, w: seq<bool>, x: seq<bool>, y: seq<bool>,
    z: seq<bool>)
    requires |ds| == 4 && |bs| == 3
    requires BitsOf(ds[0], 6) == u && BitsOf(ds[1], 6) == v + w && BitsOf(ds[2], 6) == x + y && BitsOf(ds[3], 6) == z
    requires BitsOf(bs[0], 8) == u + v && BitsOf(bs[1], 8) == w + x && BitsOf(bs[2], 8) == y + z
    ensures AllBits(ds, 6) == AllBits(bs, 8)
  {
    assert ds == [ds[0], ds[1], ds[2], ds[3]] && bs == [bs[0], bs[1], bs[2]];
    Four(ds[0], ds[1], ds[2], ds[3], 6);
    Three(bs[0], bs[1], bs[2], 8);
    Regroup(u, v, w, x, y, z);
  }

  lemma Regroup(a: seq<bool>, b: seq<bool>, c: seq<bool>, d: seq<bool>, e: seq<bool>, f: seq<bool>)
    ensures a + ((b + c) + ((d + e) + f)) == (a + b) + ((c + d) + (e + f))
  {
  }

  lemma One(a: nat, k: nat)
    ensures AllBits([a], k) == BitsOf(a, k)
  {
    assert [a][1..] == [];
  }

  lemma Two(a: nat, b: nat, k: nat)
    ensures AllBits([a, b], k) == BitsOf(a, k) + BitsOf(b, k)
  {
    assert [a, b][1..] == [b];
    One(b, k);
  }

  lemma Three(a: nat, b: nat, c: nat, k: nat)
    ensures AllBits([a, b, c], k) == BitsOf(a, k) + (BitsOf(b, k) + BitsOf(c, k))
  {
    assert [a, b, c][1..] == [b, c];
    Two(b, c, k);
  }

  lemma Four(a: nat, b: nat, c: nat, d: nat, k: nat)
    ensures AllBits([a, b, c, d], k) == BitsOf(a, k) + (BitsOf(b, k) + (BitsOf(c, k) + BitsOf(d, k)))
  {
    assert [a, b, c, d][1..] == [b, c, d];
    Three(b, c, d, k);
  }

  lemma {:induction false} AllBitsAppend(xs: seq<nat>, ys: seq<nat>, k: nat)
    ensures AllBits(xs + ys, k) == AllBits(xs, k) + AllBits(ys, k)
  {
    if xs == [] {
      assert xs + ys == ys;
    } else {
      assert (xs + ys)[1..] == xs[1..] + ys;
      AllBitsAppend(xs[1..], ys, k);
    }
  }

  lemma ZeroBits()
    ensures BitsOf(0, 2) == Zeros(1) && BitsOf(0, 4) == Zeros(2)
  {
    assert BitsOf(0, 1) == [] + [false] && BitsOf(0, 2) == BitsOf(0, 1) + [false];
    assert BitsOf(0, 3) == BitsOf(0, 2) + [false] && BitsOf(0, 4) == BitsOf(0, 3) + [false];
  }

  /** Two bytes, or one, are filled up with zero bits to three or two digits. */
  lemma TwoBytes(a: Byte, b: Byte)
    ensures AllBits(ThreeDigits(a, b), 6) == AllBits([a, b], 8) + Zeros(1)
  {
    SixTwo(a);
    FourFour(b);
    SecondDigit(a, b);
    LowDigit(b % 16, 0, b % 16 * 4);
    ZeroBits();
    SharedTwo(ThreeDigits(a, b), [a, b], BitsOf(a / 4, 6), BitsOf(a % 4, 2), BitsOf(b / 16, 4), BitsOf(b % 16, 4));
  }

  ghost function ThreeDigits(a: Byte, b: Byte): (r: seq<nat>)
    ensures |r| == 3 && Digits(r)
  {
    [a / 4, a % 4 * 16 + b / 16, b % 16 * 4]
  }

  lemma SharedTwo(ds: seq<nat>, bs: seq<nat>, u: seq<bool>, v: seq<bool>, w: seq<bool>, x: seq<bool>)
    requires |ds| == 3 && |bs| == 2
    requires BitsOf(ds[0], 6) == u && BitsOf(ds[1], 6) == v + w && BitsOf(ds[2], 6) == x + Zeros(1)
    requires BitsOf(bs[0], 8) == u + v && BitsOf(bs[1], 8) == w + x
    ensures AllBits(ds, 6) == AllBits(bs, 8) + Zeros(1)
  {
    assert ds == [ds[0], ds[1], ds[2]] && bs == [bs[0], bs[1]];
    Three(ds[0], ds[1], ds[2], 6);
    Two(bs[0], bs[1], 8);
    RegroupTwo(u, v, w, x, Zeros(1));
  }

  lemma RegroupTwo(u: seq<bool>, v: seq<bool>, w: seq<bool>, x: seq<bool>, z: seq<bool>)
    ensures u + ((v + w) + (x + z)) == (u + v) + (w + x) + z
  {
  }

  lemma OneByte(a: Byte)
    ensures AllBits(TwoDigits(a), 6) == AllBits([a], 8) + Zeros(2)
  {
    SixTwo(a);
    HighDigit(a % 4, 0, a % 4 * 16);
    ZeroBits();
    SharedOne(TwoDigits(a), a, BitsOf(a / 4, 6), BitsOf(a % 4, 2));
  }

  ghost function TwoDigits(a: Byte): (r: seq<nat>)
    ensures |r| == 2 && Digits(r)
  {
    [a / 4, a % 4 * 16]
  }

  lemma SharedOne(ds: seq<nat>, b: nat, u: seq<bool>, v: seq<bool>)
    requires |ds| == 2 && BitsOf(ds[0], 6) == u && BitsOf(ds[1], 6) == v + Zeros(2) && BitsOf(b, 8) == u + v
    ensures AllBits(ds, 6) == AllBits([b], 8) + Zeros(2)
  {
    assert ds == [ds[0], ds[1]];
    Two(ds[0], ds[1], 6);
    One(b, 8);
    assert u + (v + Zeros(2)) == (u + v) + Zeros(2);
  }

  // ---------- The encoding ----------

  ghost predicate Digits(ds: seq<nat>) {
    forall i :: 0 <= i < |ds| ==> ds[i] < 64
  }

  /** The digits as characters, and p padding characters. */
  ghost function Text(ds: seq<nat>, p: nat): (r: seq<Byte>)
    requires Digits(ds)
  {
    seq(|ds| + p, i requires 0 <= i < |ds| + p => if i < |ds| then EncMap(ds[i]) else PAD)
  }

  /** p zero bits twice over. */
  ghost function Zeros(p: nat): seq<bool> {
    seq(2 * p, _ => false)
  }

  ghost predicate IsText(src: seq<Byte>, ds: seq<nat>, p: nat) {
    Digits(ds) && p <= 2 && AllBits(ds, 6) == AllBits(src, 8) + Zeros(p) && (|ds| + p) % 4 == 0
  }

  /**
   The encoding of any bytes is text whose characters, taken from the alphabet, carry the bits of
   the bytes six at a time, filled up with zeros and padding characters to a multiple of four.
   */
  lemma {:induction false} EncodingIsText(src: seq<Byte>) returns (ds: seq<nat>, p: nat)
    ensures IsText(src, ds, p) && Encoding(src) == Text(ds, p)
  {
    if src == [] {
      ds, p := [], 0;
    } else if |src| == 1 {
      ds, p := TwoDigits(src[0]), 2;
      OneByte(src[0]);
      assert src == [src[0]];
    } else if |src| == 2 {
      ds, p := ThreeDigits(src[0], src[1]), 1;
      TwoBytes(src[0], src[1]);
      assert src == [src[0], src[1]];
    } else {
      var rest;
      rest, p := EncodingIsText(src[3..]);
      ds := FourDigits(src[0], src[1], src[2]) + rest;
      GroupThen(src, rest, p);
    }
  }

  lemma GroupThen(src: seq<Byte>, rest: seq<nat>, p: nat)
    requires |src| >= 3 && IsText(src[3..], rest, p) && Encoding(src[3..]) == Text(rest, p)
    ensures var ds := FourDigits(src[0], src[1], src[2]) + rest; IsText(src, ds, p) && Encoding(src) == Text(ds, p)
  {
    EncodingHead(src);
    GroupText(FourDigits(src[0], src[1], src[2]), rest, p);
    GroupIsText(src[0], src[1], src[2], src[3..], rest, p);
    HeadOfThree(src);
  }

  lemma HeadOfThree(src: seq<Byte>)
    requires |src| >= 3
    ensures src == [src[0], src[1], src[2]] + src[3..]
  {
    assert src[..3] == [src[0], src[1], src[2]];
    assert src == src[..3] + src[3..];
  }

  lemma GroupIsText(a: Byte, b: Byte, c: Byte, tail: seq<Byte>, rest: seq<nat>, p: nat)
    requires IsText(tail, rest, p)
    ensures IsText([a, b, c] + tail, FourDigits(a, b, c) + rest, p)
  {
    var q, h := FourDigits(a, b, c), [a, b, c];
    GroupBits(a, b, c);
    GroupAppends(q, h, rest, tail, p);
    GroupText(q, rest, p);
  }

  lemma EncodingHead(src: seq<Byte>)
    requires |src| >= 3
    ensures var q := FourDigits(src[0], src[1], src[2]);
      Encoding(src) == [EncMap(q[0]), EncMap(q[1]), EncMap(q[2]), EncMap(q[3])] + Encoding(src[3..])
  {
    QuadIs(src[0], src[1], src[2]);
    assert Encoding(src) == Quad(src[0], src[1], src[2]) + Encoding(src[3..]);
  }

  lemma QuadIs(a: Byte, b: Byte, c: Byte)
    ensures var q := FourDigits(a, b, c); Quad(a, b, c) == [EncMap(q[0]), EncMap(q[1]), EncMap(q[2]), EncMap(q[3])]
  {
  }

  lemma GroupAppends(q: seq<nat>, h: seq<nat>, rest: seq<nat>, tail: seq<nat>, p: nat)
    requires AllBits(q, 6) == AllBits(h, 8) && AllBits(rest, 6) == AllBits(tail, 8) + Zeros(p)
    ensures AllBits(q + rest, 6) == AllBits(h + tail, 8) + Zeros(p)
  {
    AllBitsAppend(q, rest, 6);
    AllBitsAppend(h, tail, 8);
  }

  lemma GroupText(q: seq<nat>, rest: seq<nat>, p: nat)
    requires |q| == 4 && Digits(q) && Digits(rest)
    ensures Text(q + rest, p) == [EncMap(q[0]), EncMap(q[1]), EncMap(q[2]), EncMap(q[3])] + Text(rest, p)
    ensures (|q + rest| + p) % 4 == (|rest| + p) % 4
  {
  }
}
