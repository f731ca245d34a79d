/**
 Base64 (section 5.2 of RFC 1521): mbedtls_base64_encode and the two passes of
 mbedtls_base64_decode. Shifts and masks are written as the arithmetic they stand for.
 */
module Base64 {
  import opened Options
  import Arith

  type Byte = x: int | 0 <= x < 256

  /** BASE64_SIZE_T_MAX, for either width of size_t. */
  type SizeLimit = n: nat | n == 0xFFFF_FFFF || n == 0xFFFF_FFFF_FFFF_FFFF witness 0xFFFF_FFFF
  const SIZE_MAX: SizeLimit

  const SPACE: Byte := 32
  const CR: Byte := 13
  const LF: Byte := 10
  const PAD: Byte := 61

  datatype Status = Ok | BufferTooSmall | InvalidCharacter

  /** base64_enc_map: A-Z a-z 0-9 + /. */
  function EncMap(d: nat): (c: Byte)
    requires d < 64
  {
    if d < 26 then 65 + d
    else if d < 52 then 97 + d - 26
    else if d < 62 then 48 + d - 52
    else if d == 62 then 43
    else 47
  }

  /** base64_dec_map: a digit, 64 for the padding character, 127 for anything else. */
  function DecMap(c: Byte): (d: nat) {
    if 65 <= c <= 90 then c - 65
    else if 97 <= c <= 122 then c - 97 + 26
    else if 48 <= c <= 57 then c - 48 + 52
    else if c == 43 then 62
    else if c == 47 then 63
    else if c == PAD then 64
    else 127
  }

  // ----- encoding -----

  /** Four digits for three bytes. */
  function Quad(a: Byte, b: Byte, c: Byte): seq<Byte> {
    [EncMap(a / 4), EncMap(a % 4 * 16 + b / 16), EncMap(b % 16 * 4 + c / 64), EncMap(c % 64)]
  }

  ghost function Encoding(src: seq<Byte>): (r: seq<Byte>) {
    if src == [] then []
    else if |src| == 1 then [EncMap(src[0] / 4), EncMap(src[0] % 4 * 16), PAD, PAD]
    else if |src| == 2 then [EncMap(src[0] / 4), EncMap(src[0] % 4 * 16 + src[1] / 16), EncMap(src[1] % 16 * 4), PAD]
    else Quad(src[0], src[1], src[2]) + Encoding(src[3..])
  }

  lemma {:induction false} EncodingLength(src: seq<Byte>)
    ensures |Encoding(src)| == (|src| + 2) / 3 * 4
  {
    if |src| >= 3 { EncodingLength(src[3..]); }
  }

  /** mbedtls_base64_encode into a buffer of dlen bytes, one of them for the terminator. */
  method Encode(dlen: nat, src: seq<Byte>) returns (status: Status, dst: seq<Byte>, olen: nat)
    ensures status.Ok? <==> src == [] || ((|src| + 2) / 3 <= (SIZE_MAX - 1) / 4 && (|src| + 2) / 3 * 4 + 1 <= dlen)
    ensures status.Ok? ==> dst == Encoding(src) && olen == |dst| && (src != [] ==> olen + 1 <= dlen)
    ensures !status.Ok? ==> status == BufferTooSmall && dst == []
    ensures !status.Ok? ==> olen == if (|src| + 2) / 3 <= (SIZE_MAX - 1) / 4 then (|src| + 2) / 3 * 4 + 1 else SIZE_MAX
  {
    dst := [];
    if |src| == 0 { return Ok, dst, 0; }
    var n := |src| / 3 + (if |src| % 3 != 0 then 1 else 0);
    if n > (SIZE_MAX - 1) / 4 { return BufferTooSmall, dst, SIZE_MAX; }
    n := n * 4;
    if dlen < n + 1 { return BufferTooSmall, dst, n + 1; }
    dst := EncodeGroups(src);
    EncodingLength(src);
    return Ok, dst, |dst|;
  }

  method EncodeGroups(src: seq<Byte>) returns (dst: seq<Byte>)
    ensures dst == Encoding(src)
  {
    var n, i := |src| / 3 * 3, 0;
    ghost var left := |src| / 3;
    dst := [];
    assert src[0..] == src;
    while i < n
      invariant 0 <= i <= n && n == i + 3 * left && n <= |src| < n + 3
      invariant dst + Encoding(src[i..]) == Encoding(src)
      decreases left
    {
      EncodingStep(src, i, dst);
      dst := dst + Quad(src[i], src[i + 1], src[i + 2]);
      i, left := i + 3, left - 1;
    }
    if i < |src| {
      var q := Tail(src[i..]);
      dst := dst + q;
    } else {
      assert Encoding(src[i..]) == [];
    }
  }

  lemma EncodingStep(src: seq<Byte>, i: nat, dst: seq<Byte>)
    requires i + 3 <= |src|
    ensures dst + Encoding(src[i..]) == dst + Quad(src[i], src[i + 1], src[i + 2]) + Encoding(src[i + 3..])
  {
    assert src[i..][3..] == src[i + 3..];
  }

  method Tail(src: seq<Byte>) returns (q: seq<Byte>)
    requires 1 <= |src| <= 2
    ensures q == Encoding(src)
  {
    var c1 := src[0];
    var c2 := if |src| > 1 then src[1] else 0;
    q := [EncMap(c1 / 4), EncMap(c1 % 4 * 16 + c2 / 16)];
    if |src| > 1 { q := q + [EncMap(c2 % 16 * 4)]; } else { q := q + [PAD]; }
    q := q + [PAD];
  }

  // ----- decoding: the specification -----

  /** The significant characters; `spaces` says that spaces came just before. They may only end a line. */
  ghost function Layout(src: seq<Byte>, spaces: bool): Option<seq<Byte>> {
    if src == [] then Some([])
    else
      var c, rest := src[0], src[1..];
      if c == SPACE then Layout(rest, true)
      else if c == LF || (c == CR && rest != [] && rest[0] == LF) then Layout(rest, false)
      else if spaces then None
      else match Layout(rest, false) case None => None case Some(cs) => Some([c] + cs)
  }

  /** Digits, and then at most 2 - j padding characters; no digit once there was padding. */
  ghost predicate Content(cs: seq<Byte>, j: nat) {
    cs == [] ||
    if cs[0] == PAD then j < 2 && Content(cs[1..], j + 1) else DecMap(cs[0]) < 64 && j == 0 && Content(cs[1..], j)
  }

  ghost function Pads(cs: seq<Byte>): nat {
    if cs == [] then 0 else (if cs[0] == PAD then 1 else 0) + Pads(cs[1..])
  }

  /** What the second pass writes, with n digits of a group in x and 3 - j paddings seen. */
  ghost function Decoding(cs: seq<Byte>, n: nat, x: nat, j: int): seq<Byte> {
    if cs == [] then []
    else
      var y, k := Shift(x, cs[0]), if cs[0] == PAD then j - 1 else j;
      if n + 1 == 4 then Emit(y, k) + Decoding(cs[1..], 0, y, k) else Decoding(cs[1..], n + 1, y, k)
  }

  /** Six more bits enter a 32-bit word from below. */
  function Shift(x: nat, c: Byte): nat {
    (x * 64 + DecMap(c) % 64) % 0x1_0000_0000
  }

  function Emit(x: nat, j: int): seq<Byte> {
    (if j > 0 then [x / 0x1_0000 % 0x100] else []) + (if j > 1 then [x / 0x100 % 0x100] else []) +
      (if j > 2 then [x % 0x100] else [])
  }

  function OutputSize(n: nat, j: nat): int {
    6 * (n / 8) + (6 * (n % 8) + 7) / 8 - j
  }

  // ----- decoding: the two passes -----

  /** What the first pass finds from here on, with n characters and j paddings so far. */
  ghost function Found(src: seq<Byte>, spaces: bool, n: nat, j: nat): Option<(nat, nat)> {
    match Layout(src, spaces)
    case None => None
    case Some(cs) => if Content(cs, j) then Some((n + |cs|, j + Pads(cs))) else None
  }

  /** First pass: check for validity, count characters and paddings. */
  method Scan(src: seq<Byte>) returns (r: Option<(nat, nat)>)
    ensures r == Found(src, false, 0, 0)
  {
    var i, n, j := 0, 0, 0;
    while i < |src|
      invariant 0 <= i <= |src| && Found(src[i..], false, n, j) == Found(src, false, 0, 0)
      decreases |src| - i
    {
      var x := 0;
      ghost var start := i;
      while i < |src| && src[i] == SPACE
        invariant start <= i <= |src| && x == i - start
        invariant Found(src[i..], x != 0, n, j) == Found(src, false, 0, 0)
      {
        assert src[i..][1..] == src[i + 1..];
        i, x := i + 1, x + 1;
      }
      if i == |src| { break; }
      assert src[i..][1..] == src[i + 1..];
      var c := src[i];
      if |src| - i >= 2 && c == CR && src[i + 1] == LF { i := i + 1; continue; }
      if c == LF { i := i + 1; continue; }
      if x != 0 { return None; }
      if c == PAD {
        j := j + 1;
        if j > 2 { return None; }
      }
      if DecMap(c) == 127 { return None; }
      if DecMap(c) < 64 && j != 0 { return None; }
      n := n + 1;
      i := i + 1;
    }
    return Some((n, j));
  }

  ghost predicate Skipped(c: Byte) {
    c == CR || c == LF || c == SPACE
  }

  ghost function Kept(src: seq<Byte>): seq<Byte> {
    if src == [] then [] else if Skipped(src[0]) then Kept(src[1..]) else [src[0]] + Kept(src[1..])
  }

  /** Second pass. */
  method Fill(src: seq<Byte>) returns (dst: seq<Byte>)
    ensures dst == Decoding(Kept(src), 0, 0, 3)
  {
    dst := [];
    var i, n, x, j: int := 0, 0, 0, 3;
    while i < |src|
      invariant 0 <= i <= |src| && 0 <= n < 4 && x >= 0
      invariant dst + Decoding(Kept(src[i..]), n, x, j) == Decoding(Kept(src), 0, 0, 3)
    {
      var c := src[i];
      ghost var rest := Kept(src[i + 1..]);
      assert src[i..][1..] == src[i + 1..];
      i := i + 1;
      if c == CR || c == LF || c == SPACE { continue; }
      assert ([c] + rest)[1..] == rest;
      if DecMap(c) == 64 { j := j - 1; }
      x := Shift(x, c);
      n := n + 1;
      if n == 4 {
        n := 0;
        ghost var before := dst;
        dst := dst + Emit(x, j);
        assert before + (Emit(x, j) + Decoding(rest, n, x, j)) == dst + Decoding(rest, n, x, j);
      }
    }
    assert Decoding(Kept(src[i..]), n, x, j) == [];
  }

  /** On accepted input the second pass sees what the first pass counted. */
  lemma {:induction false} KeptIsLayout(src: seq<Byte>, spaces: bool, j: nat)
    requires Layout(src, spaces).Some? && Content(Layout(src, spaces).value, j)
    ensures Kept(src) == Layout(src, spaces).value
  {
    if src != [] {
      var c, rest := src[0], src[1..];
      if c == SPACE {
        KeptIsLayout(rest, true, j);
      } else if c == LF || (c == CR && rest != [] && rest[0] == LF) {
        KeptIsLayout(rest, false, j);
      } else {
        var cs := Layout(rest, false).value;
        assert ([c] + cs)[1..] == cs;
        KeptIsLayout(rest, false, if c == PAD then j + 1 else j);
      }
    }
  }

  /** mbedtls_base64_decode into a buffer of dlen bytes. */
  method Decode(dlen: nat, src: seq<Byte>) returns (status: Status, dst: seq<Byte>, olen: nat)
    ensures status.InvalidCharacter? <==> !Acceptable(src)
    ensures status.Ok? ==> dst == Decoded(src) && olen == |dst| && |dst| <= dlen
    ensures status.BufferTooSmall? ==> olen > dlen && olen == OutputSize(|Kept(src)|, Pads(Kept(src))) && dst == []
    ensures Acceptable(src) && dlen >= OutputSize(|Kept(src)|, Pads(Kept(src))) ==> status.Ok?
  {
    dst, olen := [], 0;
    var r := Scan(src);
    if r.None? { return InvalidCharacter, dst, olen; }
    KeptIsLayout(src, false, 0);
    var (n, j) := r.value;
    if n == 0 { return Ok, dst, 0; }
    WritesAtMost(Kept(src), 0, 0);
    var size := OutputSize(n, j);
    if dlen < size { return BufferTooSmall, dst, size; }
    dst := Fill(src);
    return Ok, dst, |dst|;
  }

  ghost predicate Acceptable(src: seq<Byte>) {
    Layout(src, false).Some? && Content(Layout(src, false).value, 0)
  }

  ghost function Decoded(src: seq<Byte>): seq<Byte> {
    Decoding(Kept(src), 0, 0, 3)
  }

  /** The second pass writes no more than the first has computed. */
  lemma {:induction false} WritesAtMost(cs: seq<Byte>, n: nat, x: nat)
    requires n < 4 && Content(cs, 0)
    ensures |Decoding(cs, n, x, 3)| <= OutputSize(n + |cs|, Pads(cs))
  {
    if cs != [] && cs[0] != PAD {
      WritesAtMost(cs[1..], if n + 1 == 4 then 0 else n + 1, Shift(x, cs[0]));
    } else if cs != [] {
      OnlyPads(cs);
      if |cs| == 1 { assert cs == [PAD]; OnePad(n, x, 3); } else { assert cs == [PAD, PAD]; TwoPads(n, x); }
    }
  }

  lemma OnlyPads(cs: seq<Byte>)
    requires cs != [] && cs[0] == PAD && Content(cs, 0)
    ensures (|cs| == 1 && Pads(cs) == 1) || (|cs| == 2 && cs[1] == PAD && Pads(cs) == 2)
  {
    var t := cs[1..];
    if t != [] {
      assert t[0] == PAD && Content(t[1..], 2);
      assert t[1..] == [];
      assert Pads(t) == 1 + Pads(t[1..]);
    }
  }

  lemma OnePad(n: nat, x: nat, j: int)
    requires n < 4
    ensures Decoding([PAD], n, x, j) == if n == 3 then Emit(Shift(x, PAD), j - 1) else []
  {
    assert [PAD][1..] == [];
    assert Emit(Shift(x, PAD), j - 1) + [] == Emit(Shift(x, PAD), j - 1);
  }

  lemma TwoPads(n: nat, x: nat)
    requires n < 4
    ensures |Decoding([PAD, PAD], n, x, 3)| == if n == 3 then 2 else if n == 2 then 1 else 0
  {
    var y := Shift(x, PAD);
    assert [PAD, PAD][1..] == [PAD];
    OnePad(if n == 3 then 0 else n + 1, y, 2);
  }

  // ----- round trip -----

  /** t is s with line breaks, LF or CRLF, put in anywhere. */
  ghost predicate Broken(t: seq<Byte>, s: seq<Byte>)
    decreases |t|
  {
    if t == [] then s == []
    else
      || (t[0] == LF && Broken(t[1..], s))
      || (t[0] == CR && |t| > 1 && t[1] == LF && Broken(t[2..], s))
      || (s != [] && t[0] == s[0] && Broken(t[1..], s[1..]))
  }

  ghost predicate NoneSkipped(s: seq<Byte>) {
    forall i :: 0 <= i < |s| ==> !Skipped(s[i])
  }

  lemma {:induction false} BrokenLayout(t: seq<Byte>, s: seq<Byte>)
    requires Broken(t, s) && NoneSkipped(s)
    ensures Layout(t, false) == Some(s)
    decreases |t|
  {
    if t != [] {
      if t[0] == LF && Broken(t[1..], s) {
        BrokenLayout(t[1..], s);
      } else if t[0] == CR && |t| > 1 && t[1] == LF && Broken(t[2..], s) {
        BrokenLayout(t[2..], s);
        assert t[1..][0] == LF && t[1..][1..] == t[2..];
      } else {
        BrokenLayout(t[1..], s[1..]);
        assert s == [s[0]] + s[1..] && !Skipped(s[0]);
      }
    }
  }

  lemma MapBack(d: nat)
    requires d < 64
    ensures DecMap(EncMap(d)) == d && EncMap(d) != PAD && !Skipped(EncMap(d))
  {
  }

  lemma Bits24(a: Byte, b: Byte, c: Byte)
    ensures a / 4 < 64 && a % 4 * 16 + b / 16 < 64 && b % 16 * 4 + c / 64 < 64 && c % 64 < 64
    ensures a / 4 * 0x4_0000 + (a % 4 * 16 + b / 16) * 0x1000 + (b % 16 * 4 + c / 64) * 64 + c % 64 ==
      a * 0x1_0000 + b * 0x100 + c
  {
  }

  lemma ModOfMod(y: nat, m: nat, k: nat)
    requires m > 0 && k > 0
    ensures m * k > 0 && y % (m * k) % m == y % m
  {
    Arith.MulLt(0, m, k);
    var p, r := y / (m * k), y % (m * k);
    calc {
      y;
      p * (m * k) + r;
      { assert p * (m * k) == (p * k) * m; }
      (p * k) * m + (r / m * m + r % m);
      { assert (p * k) * m + r / m * m == (p * k + r / m) * m; }
      (p * k + r / m) * m + r % m;
    }
    Arith.DivModUnique(y, m, p * k + r / m, r % m);
  }

  /** The low bits after one more digit; nothing older reaches them within a group. */
  lemma ShiftLow(x: nat, c: Byte, m: nat, k: nat, v: nat)
    requires m > 0 && k > 0 && m * 64 * k == 0x1_0000_0000 && x % m == v
    ensures Shift(x, c) % (m * 64) == v * 64 + DecMap(c) % 64
  {
    var d := DecMap(c) % 64;
    var y := x * 64 + d;
    ModOfMod(y, m * 64, k);
    var q := x / m;
    assert y == q * (m * 64) + (v * 64 + d) by { assert x == q * m + v; assert q * m * 64 == q * (m * 64); }
    Arith.DivModUnique(y, m * 64, q, v * 64 + d);
  }

  /** Four characters make one group, whatever x held before. */
  lemma GroupValue(x: nat, c1: Byte, c2: Byte, c3: Byte, c4: Byte)
    ensures Shift(Shift(Shift(Shift(x, c1), c2), c3), c4) % 0x100_0000
         == Digit(c1) * 0x4_0000 + Digit(c2) * 0x1000 + Digit(c3) * 64 + Digit(c4)
  {
    var x1 := Shift(x, c1);
    var x2 := Shift(x1, c2);
    var x3 := Shift(x2, c3);
    var d1, d2, d3 := DecMap(c1) % 64, DecMap(c2) % 64, DecMap(c3) % 64;
    ShiftLow(x, c1, 1, 0x400_0000, 0);
    ShiftLow(x1, c2, 0x40, 0x10_0000, d1);
    ShiftLow(x2, c3, 0x1000, 0x4000, d1 * 64 + d2);
    ShiftLow(x3, c4, 0x4_0000, 0x100, (d1 * 64 + d2) * 64 + d3);
  }

  /** The bytes of a group depend on its 24 bits only. */
  lemma EmitLow(x: nat, a: Byte, b: Byte, c: Byte, j: int)
    requires x % 0x100_0000 == a * 0x1_0000 + b * 0x100 + c
    ensures Emit(x, j) == (if j > 0 then [a] else []) + (if j > 1 then [b] else []) + (if j > 2 then [c] else [])
  {
    ThreeBytes(x, a, b, c);
  }

  lemma ThreeBytes(x: nat, a: Byte, b: Byte, c: Byte)
    requires x % 0x100_0000 == a * 0x1_0000 + b * 0x100 + c
    ensures x / 0x1_0000 % 0x100 == a && x / 0x100 % 0x100 == b && x % 0x100 == c
  {
    var q := x / 0x100_0000;
    assert x == q * 0x100_0000 + a * 0x1_0000 + b * 0x100 + c;
    Arith.DivModUnique(x, 0x1_0000, q * 0x100 + a, b * 0x100 + c);
    Arith.DivModUnique(x, 0x100, q * 0x1_0000 + a * 0x100 + b, c);
    Arith.DivModUnique(q * 0x100 + a, 0x100, q, a);
    Arith.DivModUnique(q * 0x1_0000 + a * 0x100 + b, 0x100, q * 0x100 + a, b);
  }

  ghost function IsPad(c: Byte): nat {
    if c == PAD then 1 else 0
  }

  lemma DecodeOne(c: Byte, cs: seq<Byte>, n: nat, x: nat, j: int)
    requires n < 4
    ensures n < 3 ==> Decoding([c] + cs, n, x, j) == Decoding(cs, n + 1, Shift(x, c), j - IsPad(c))
    ensures n == 3 ==>
      Decoding([c] + cs, n, x, j) == Emit(Shift(x, c), j - IsPad(c)) + Decoding(cs, 0, Shift(x, c), j - IsPad(c))
  {
    assert ([c] + cs)[1..] == cs;
  }

  lemma DecodeFour(c1: Byte, c2: Byte, c3: Byte, c4: Byte, cs: seq<Byte>, x: nat, y: nat, k: int)
    requires y == Shift(Shift(Shift(Shift(x, c1), c2), c3), c4) &&
      k == 3 - IsPad(c1) - IsPad(c2) - IsPad(c3) - IsPad(c4)
    ensures Decoding([c1] + ([c2] + ([c3] + ([c4] + cs))), 0, x, 3) == Emit(y, k) + Decoding(cs, 0, y, k)
  {
    var x1 := Shift(x, c1);
    var x2 := Shift(x1, c2);
    var x3 := Shift(x2, c3);
    var j1 := 3 - IsPad(c1);
    var j2 := j1 - IsPad(c2);
    DecodeOne(c1, [c2] + ([c3] + ([c4] + cs)), 0, x, 3);
    DecodeOne(c2, [c3] + ([c4] + cs), 1, x1, j1);
    DecodeOne(c3, [c4] + cs, 2, x2, j2);
    DecodeOne(c4, cs, 3, x3, j2 - IsPad(c3));
  }

  /** Four characters for four digits, the last p of them padding. */
  ghost function Chars(d1: nat, d2: nat, d3: nat, d4: nat, p: nat): (r: seq<Byte>)
    requires d1 < 64 && d2 < 64 && d3 < 64 && d4 < 64
    ensures |r| == 4
  {
    [EncMap(d1), EncMap(d2), if p == 2 then PAD else EncMap(d3), if p > 0 then PAD else EncMap(d4)]
  }

  ghost function Group(a: Byte, b: Byte, c: Byte, p: nat): (r: seq<Byte>)
    ensures |r| == 4
  {
    Chars(a / 4, a % 4 * 16 + b / 16, b % 16 * 4 + c / 64, c % 64, p)
  }

  lemma CharsBack(d1: nat, d2: nat, d3: nat, d4: nat, p: nat)
    requires d1 < 64 && d2 < 64 && d3 < 64 && d4 < 64 && (p > 0 ==> d4 == 0) && (p == 2 ==> d3 == 0)
    ensures var g := Chars(d1, d2, d3, d4, p);
      Digit(g[0]) == d1 && Digit(g[1]) == d2 && Digit(g[2]) == d3 && Digit(g[3]) == d4 &&
      IsPad(g[0]) == 0 && IsPad(g[1]) == 0 && IsPad(g[2]) == (if p == 2 then 1 else 0) &&
        IsPad(g[3]) == (if p > 0 then 1 else 0)
  {
    MapBack(d1);
    MapBack(d2);
    MapBack(d3);
    MapBack(d4);
  }

  ghost function Digit(c: Byte): nat {
    DecMap(c) % 64
  }

  lemma GroupDigits(a: Byte, b: Byte, c: Byte, p: nat)
    requires p == 0 || (p == 1 && c == 0) || (p == 2 && b == 0 && c == 0)
    ensures var g := Group(a, b, c, p);
      Digit(g[0]) == a / 4 && Digit(g[1]) == a % 4 * 16 + b / 16 && Digit(g[2]) == b % 16 * 4 + c / 64 &&
        Digit(g[3]) == c % 64 &&
      IsPad(g[0]) == 0 && IsPad(g[1]) == 0 && IsPad(g[2]) == (if p == 2 then 1 else 0) &&
        IsPad(g[3]) == (if p > 0 then 1 else 0)
  {
    Bits24(a, b, c);
    CharsBack(a / 4, a % 4 * 16 + b / 16, b % 16 * 4 + c / 64, c % 64, p);
  }

  lemma DecodeGroup(a: Byte, b: Byte, c: Byte, p: nat, cs: seq<Byte>, x: nat) returns (y: nat)
    requires p == 0 || (p == 1 && c == 0) || (p == 2 && b == 0 && c == 0)
    ensures Decoding(Group(a, b, c, p) + cs, 0, x, 3)
         == [a] + (if p < 2 then [b] else []) + (if p == 0 then [c] else []) + Decoding(cs, 0, y, 3 - p)
  {
    var g := Group(a, b, c, p);
    GroupDigits(a, b, c, p);
    y := DecodeChars(g[0], g[1], g[2], g[3], a, b, c, p, cs, x);
    assert g + cs == [g[0]] + ([g[1]] + ([g[2]] + ([g[3]] + cs)));
  }

  lemma DecodeChars(c1: Byte, c2: Byte, c3: Byte, c4: Byte, a: Byte, b: Byte, c: Byte, p: nat, cs: seq<Byte>, x: nat)
    returns (y: nat)
    requires p <= 2 && Digit(c1) == a / 4 && Digit(c2) == a % 4 * 16 + b / 16 && Digit(c3) == b % 16 * 4 + c / 64 &&
      Digit(c4) == c % 64
    requires IsPad(c1) + IsPad(c2) + IsPad(c3) + IsPad(c4) == p
    ensures Decoding([c1] + ([c2] + ([c3] + ([c4] + cs))), 0, x, 3)
         == [a] + (if p < 2 then [b] else []) + (if p == 0 then [c] else []) + Decoding(cs, 0, y, 3 - p)
  {
    y := Shift(Shift(Shift(Shift(x, c1), c2), c3), c4);
    GroupValue(x, c1, c2, c3, c4);
    Bits24(a, b, c);
    EmitLow(y, a, b, c, 3 - p);
    DecodeFour(c1, c2, c3, c4, cs, x, y, 3 - p);
  }

  lemma EncodingIsGroup(src: seq<Byte>, b: Byte, c: Byte)
    requires src != [] && b == (if |src| > 1 then src[1] else 0) && c == (if |src| > 2 then src[2] else 0)
    ensures Encoding(src) ==
      Group(src[0], b, c, if |src| >= 3 then 0 else 3 - |src|) + Encoding(if |src| >= 3 then src[3..] else [])
  {
  }

  /** Decoding undoes encoding, group by group. */
  lemma {:induction false} DecodeEncoding(src: seq<Byte>, x: nat)
    ensures Decoding(Encoding(src), 0, x, 3) == src
  {
    if src != [] {
      var b := if |src| > 1 then src[1] else 0;
      var c := if |src| > 2 then src[2] else 0;
      EncodingIsGroup(src, b, c);
      if |src| >= 3 {
        var y := DecodeGroup(src[0], b, c, 0, Encoding(src[3..]), x);
        DecodeEncoding(src[3..], y);
        assert src == [src[0]] + [src[1]] + [src[2]] + src[3..];
      } else {
        var y := DecodeGroup(src[0], b, c, 3 - |src|, [], x);
      }
    }
  }

  /** How many bytes the last group lacks. */
  ghost function Missing(n: nat): nat {
    if n >= 3 then Missing(n - 3) else if n == 0 then 0 else 3 - n
  }

  lemma {:induction false} MissingIs(n: nat)
    ensures Missing(n) == (n + 2) / 3 * 3 - n
  {
    if n >= 3 { MissingIs(n - 3); }
  }

  lemma {:induction false} EncodingContent(src: seq<Byte>)
    ensures Content(Encoding(src), 0) && NoneSkipped(Encoding(src)) && Pads(Encoding(src)) == Missing(|src|)
  {
    if src != [] {
      var b := if |src| > 1 then src[1] else 0;
      var c := if |src| > 2 then src[2] else 0;
      var p := if |src| >= 3 then 0 else 3 - |src|;
      EncodingIsGroup(src, b, c);
      GroupLegal(src[0], b, c, p);
      if |src| >= 3 {
        EncodingContent(src[3..]);
        GroupContent(Group(src[0], b, c, 0), 0, Encoding(src[3..]));
      } else {
        GroupContent(Group(src[0], b, c, p), p, []);
      }
    }
  }

  ghost predicate IsDigit(c: Byte) {
    DecMap(c) < 64 && c != PAD && !Skipped(c)
  }

  lemma GroupLegal(a: Byte, b: Byte, c: Byte, p: nat)
    ensures var g := Group(a, b, c, p);
      IsDigit(g[0]) && IsDigit(g[1]) && (if p == 2 then g[2] == PAD else IsDigit(g[2])) &&
        (if p > 0 then g[3] == PAD else IsDigit(g[3]))
  {
    Bits24(a, b, c);
    MapBack(a / 4);
    MapBack(a % 4 * 16 + b / 16);
    MapBack(b % 16 * 4 + c / 64);
    MapBack(c % 64);
  }

  lemma ContentStep(c: Byte, cs: seq<Byte>, j: nat)
    ensures IsDigit(c) && Content(cs, 0) ==> Content([c] + cs, 0) && Pads([c] + cs) == Pads(cs)
    ensures c == PAD && j < 2 && Content(cs, j + 1) ==> Content([c] + cs, j) && Pads([c] + cs) == Pads(cs) + 1
    ensures (IsDigit(c) || c == PAD) && NoneSkipped(cs) ==> NoneSkipped([c] + cs)
  {
    assert ([c] + cs)[1..] == cs;
  }

  lemma GroupContent(g: seq<Byte>, p: nat, cs: seq<Byte>)
    requires |g| == 4 && ((p == 0 && Content(cs, 0)) || (p <= 2 && cs == [])) && NoneSkipped(cs)
    requires IsDigit(g[0]) && IsDigit(g[1]) && (if p == 2 then g[2] == PAD else IsDigit(g[2])) &&
      (if p > 0 then g[3] == PAD else IsDigit(g[3]))
    ensures Content(g + cs, 0) && Pads(g + cs) == p + Pads(cs) && NoneSkipped(g + cs)
  {
    var s4 := [g[3]] + cs;
    var s3 := [g[2]] + s4;
    var s2 := [g[1]] + s3;
    assert g + cs == [g[0]] + s2;
    ContentStep(g[3], cs, if p == 2 then 1 else 0);
    ContentStep(g[2], s4, 0);
    ContentStep(g[1], s3, 0);
    ContentStep(g[0], s2, 0);
  }

  lemma ExactSize(g: nat, j: nat)
    ensures OutputSize(g * 4, j) == 3 * g - j
  {
    var h, r := g / 2, g % 2;
    assert g == 2 * h + r;
    Arith.DivModUnique(g * 4, 8, h, r * 4);
  }

  /** Decoding an encoding, with any line breaks put in, gives the original bytes, and room for them suffices. */
  lemma RoundTrip(src: seq<Byte>, t: seq<Byte>)
    requires Broken(t, Encoding(src))
    ensures Acceptable(t) && Decoded(t) == src && OutputSize(|Kept(t)|, Pads(Kept(t))) == |src|
  {
    EncodingContent(src);
    EncodingLength(src);
    MissingIs(|src|);
    ExactSize((|src| + 2) / 3, Missing(|src|));
    BrokenLayout(t, Encoding(src));
    KeptIsLayout(t, false, 0);
    DecodeEncoding(src, 0);
  }
}
