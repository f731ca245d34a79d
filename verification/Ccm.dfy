/**
 CCM: ccm_auth_crypt, mbedtls_ccm_encrypt_and_tag and mbedtls_ccm_auth_decrypt over an arbitrary
 cipher with 16 byte blocks.
 */
module Ccm {
  import opened Blocks
  import opened CcmFormat

  datatype Result<T> = Ok(value: T) | BadInput | AuthFailed

  lemma IncCarry(inc: Bytes, t: Bytes, x: bv8, tail: Bytes)
    requires inc == Inc(t + [x]) + tail
    ensures if x + 1 != 0 then inc == t + ([x + 1] + tail) else inc == Inc(t) + ([x + 1] + tail)
  {
    IncLast(t, x);
    if x + 1 != 0 { Assoc(t, [x + 1], tail); } else { Assoc(Inc(t), [0], tail); }
  }

  /** The increment loop, in place. */
  method Increment(ctr: array<bv8>, q: nat)
    requires ctr.Length == 16 && q <= 16
    modifies ctr
    ensures ctr[..16 - q] == old(ctr[..16 - q]) && ctr[16 - q..] == Inc(old(ctr[16 - q..]))
  {
    ghost var s := ctr[16 - q..];
    ghost var t, tail := s, [];
    assert Inc(s) == Inc(t) + tail;
    var i := 0;
    while i < q
      invariant 0 <= i <= q && |t| == q - i && |tail| == i
      invariant ctr[..] == old(ctr[..16 - q]) + t + tail
      invariant Inc(s) == Inc(t) + tail
      decreases q - i
    {
      ghost var rest, x := t[..q - i - 1], t[q - i - 1];
      assert t == rest + [x];
      IncCarry(Inc(s), rest, x, tail);
      BumpByte(ctr, 15 - i, old(ctr[..16 - q]), rest, x, tail);
      tail, t := [x + 1] + tail, rest;
      if ctr[15 - i] != 0 {
        Assoc(old(ctr[..16 - q]), t, tail);
        Halves(ctr[..], old(ctr[..16 - q]), Inc(s));
        return;
      }
      i := i + 1;
    }
    assert t == [] && Inc(t) + tail == tail && old(ctr[..16 - q]) + t == old(ctr[..16 - q]);
    Halves(ctr[..], old(ctr[..16 - q]), Inc(s));
  }

  method BumpByte(ctr: array<bv8>, k: nat, ghost head: Bytes, ghost rest: Bytes, ghost x: bv8, ghost tail: Bytes)
    requires k < ctr.Length && ctr[..] == head + (rest + [x]) + tail && k == |head| + |rest|
    modifies ctr
    ensures ctr[..] == head + rest + ([x + 1] + tail) && ctr[k] == x + 1
  {
    assert ctr[..][k] == x;
    ctr[k] := ctr[k] + 1;
  }

  lemma Halves(s: Bytes, a: Bytes, b: Bytes)
    requires s == a + b
    ensures s[..|a|] == a && s[|a|..] == b
  {
  }

  /** The length field of the first block, last byte first. */
  method PutLength(b: array<bv8>, q: nat, length: nat) returns (left: nat)
    requires b.Length == 16 && q <= 16
    modifies b
    ensures b[..16 - q] == old(b[..16 - q]) && b[16 - q..] == BE(length, q) && left == Over(length, q)
  {
    left := length;
    for i := 0 to q
      invariant b[..16 - i] == old(b[..16 - i]) && b[16 - i..] == BE(length, i) && left == Over(length, i)
    {
      OverStep(length, i);
      ghost var tail := b[16 - i..];
      b[15 - i] := Byte(left % 256);
      assert b[15 - i..] == [Byte(left % 256)] + tail;
      left := left / 256;
    }
  }

  method FirstBlock(iv: Bytes, tagLen: nat, hasAdd: bool, length: nat) returns (b: Bytes, left: nat)
    requires 7 <= |iv| <= 13 && 2 <= tagLen <= 16
    ensures b == B0(iv, tagLen, hasAdd, length) && left == Over(length, 15 - |iv|)
    ensures StartsMac(b, iv, tagLen, hasAdd, length)
  {
    var q := 15 - |iv|;
    var buf := new bv8[16];
    buf[0] := Flags(hasAdd, tagLen, q);
    CopyInto(buf, 1, iv);
    assert buf[..16 - q] == buf[..1] + buf[1..1 + |iv|];
    left := PutLength(buf, q, length);
    assert buf[..] == buf[..16 - q] + buf[16 - q..];
    FirstStartsMac(iv, tagLen, hasAdd, length);
    b := buf[..];
  }

  /** UPDATE_CBC_MAC with a block that is filled up with zeros. */
  method UpdateMac(c: Cipher, y: Bytes, part: Bytes) returns (r: Bytes)
    requires c.Valid() && c.bs == 16 == |y| && |part| <= 16
    ensures |r| == 16 && r == Chain(c, y, part + Repeat(0, 16 - |part|))
  {
    var b := part + Repeat(0, 16 - |part|);
    assert b[..16] == b && b[16..] == [];
    r := c.enc(Xor(b, y));
  }

  /** A padded tail is its first block and the padded rest. */
  lemma ChainPart(c: Cipher, y: Bytes, m: Bytes, n: nat)
    requires c.Valid() && c.bs == 16 == |y| && m != [] && n == if |m| > 16 then 16 else |m|
    ensures Whole(16, |PadZ(m)|) && Whole(16, |PadZ(m[n..])|)
    ensures Chain(c, y, PadZ(m)) == Chain(c, Chain(c, y, m[..n] + Repeat(0, 16 - n)), PadZ(m[n..]))
  {
    PadZWhole(m);
    PadZWhole(m[n..]);
    PadZStep(m);
    PadZStep(m[n..]);
    var b := m[..n] + Repeat(0, 16 - n);
    assert PadZ(m) == b + PadZ(m[n..]);
    ChainAppend(c, y, b, PadZ(m[n..]));
  }

  /** Additional data: its length in two bytes, the data, zeros. */
  method MacAdd(c: Cipher, y0: Bytes, add: Bytes) returns (y: Bytes)
    requires c.Valid() && c.bs == 16 == |y0| && add != [] && |add| <= 0xFF00
    ensures |y| == 16 && Whole(16, |AddBlocks(add)|) && y == Chain(c, y0, AddBlocks(add))
  {
    var head := [Byte(|add| / 256 % 256), Byte(|add| % 256)];
    TwoBytes(|add|);
    ghost var all := head + add;
    var use := if |add| < 14 then |add| else 14;
    ChainPart(c, y0, all, use + 2);
    assert all[..use + 2] == head + add[..use] && all[use + 2..] == add[use..];
    y := UpdateMac(c, y0, head + add[..use]);
    y := MacLoop(c, y, add[use..]);
  }

  lemma TwoBytes(n: nat)
    ensures BE(n, 2) == [Byte(n / 256 % 256), Byte(n % 256)]
  {
    assert BE(n / 256, 1) == BE(n / 256 / 256, 0) + [Byte(n / 256 % 256)];
  }

  method MacLoop(c: Cipher, y0: Bytes, data: Bytes) returns (y: Bytes)
    requires c.Valid() && c.bs == 16 == |y0|
    ensures |y| == 16 && Whole(16, |PadZ(data)|) && y == Chain(c, y0, PadZ(data))
  {
    y := y0;
    var left := data;
    PadZWhole(data);
    while left != []
      invariant |y| == 16 && Whole(16, |PadZ(left)|) && Chain(c, y, PadZ(left)) == Chain(c, y0, PadZ(data))
      decreases |left|
    {
      var n := if |left| > 16 then 16 else |left|;
      ChainPart(c, y, left, n);
      y := UpdateMac(c, y, left[..n]);
      left := left[n..];
    }
    PadZStep(left);
  }

  /** The plaintext of what is left: the input itself, or its decryption from counter i on. */
  ghost function Plain(c: Cipher, enc: bool, iv: Bytes, i: nat, left: Bytes): (r: Bytes)
    requires c.Valid() && c.bs == 16 && 7 <= |iv| <= 13
    ensures |r| == |left|
  {
    if enc then left else CtrCrypt(c, iv, i, left)
  }

  lemma PlainPart(c: Cipher, enc: bool, iv: Bytes, i: nat, left: Bytes, n: nat)
    requires c.Valid() && c.bs == 16 && 7 <= |iv| <= 13 && left != [] && n == if |left| > 16 then 16 else |left|
    ensures var o := Xor(left[..n], c.enc(Ctr(iv, i))[..n]);
      CtrCrypt(c, iv, i, left) == o + CtrCrypt(c, iv, i + 1, left[n..]) &&
      Plain(c, enc, iv, i, left)[..n] == (if enc then left[..n] else o) &&
      Plain(c, enc, iv, i, left)[n..] == Plain(c, enc, iv, i + 1, left[n..])
  {
    var o := Xor(left[..n], c.enc(Ctr(iv, i))[..n]);
    var rest := CtrCrypt(c, iv, i + 1, left[n..]);
    assert (o + rest)[..n] == o && (o + rest)[n..] == rest;
  }

  /** One block of the message: authenticate the plaintext, on whichever side it is, and crypt. */
  method CryptBlock(c: Cipher, enc: bool, ctr: Bytes, y: Bytes, part: Bytes) returns (o: Bytes, r: Bytes)
    requires c.Valid() && c.bs == 16 == |y| == |ctr| && |part| <= 16
    ensures |o| == |part| && o == Xor(part, c.enc(ctr)[..|part|])
    ensures |r| == 16 && r == Chain(c, y, (if enc then part else o) + Repeat(0, 16 - |part|))
  {
    r := y;
    if enc { r := UpdateMac(c, r, part); }
    var b := c.enc(ctr);
    o := Xor(part, b[..|part|]);
    if !enc { r := UpdateMac(c, r, o); }
  }

  ghost predicate Remains(c: Cipher, enc: bool, iv: Bytes, i: nat, left: Bytes, y: Bytes, goal: Bytes)
    requires c.Valid() && c.bs == 16 && 7 <= |iv| <= 13
  {
    |y| == 16 && Whole(16, |PadZ(Plain(c, enc, iv, i, left))|) && Chain(c, y, PadZ(Plain(c, enc, iv, i, left))) == goal
  }

  method CryptRound(c: Cipher, enc: bool, iv: Bytes, ghost i: nat, left: Bytes, y: Bytes, ghost goal: Bytes, ctr: Bytes)
    returns (o: Bytes, r: Bytes, next: Bytes)
    requires c.Valid() && c.bs == 16 && 7 <= |iv| <= 13 && left != [] && ctr == Ctr(iv, i) &&
      Remains(c, enc, iv, i, left, y, goal)
    ensures |next| < |left| && Remains(c, enc, iv, i + 1, next, r, goal)
    ensures CtrCrypt(c, iv, i, left) == o + CtrCrypt(c, iv, i + 1, next)
  {
    var n := if |left| > 16 then 16 else |left|;
    PlainPart(c, enc, iv, i, left, n);
    ChainPart(c, y, Plain(c, enc, iv, i, left), n);
    o, r := CryptBlock(c, enc, ctr, y, left[..n]);
    next := left[n..];
  }

  method CryptLoop(c: Cipher, enc: bool, iv: Bytes, input: Bytes, y0: Bytes, ctr: array<bv8>)
    returns (output: Bytes, y: Bytes)
    requires c.Valid() && c.bs == 16 == |y0| && 7 <= |iv| <= 13 && ctr.Length == 16 && ctr[..] == Ctr(iv, 1)
    modifies ctr
    ensures output == CtrCrypt(c, iv, 1, input) && ctr[..16 - (15 - |iv|)] == old(ctr[..16 - (15 - |iv|)])
    ensures |y| == 16 && Whole(16, |PadZ(Plain(c, enc, iv, 1, input))|) &&
      y == Chain(c, y0, PadZ(Plain(c, enc, iv, 1, input)))
  {
    output, y := [], y0;
    var left := input;
    ghost var i := 1;
    PadZWhole(Plain(c, enc, iv, 1, input));
    ghost var goal := Chain(c, y0, PadZ(Plain(c, enc, iv, 1, input)));
    while left != []
      invariant ctr[..] == Ctr(iv, i) && output + CtrCrypt(c, iv, i, left) == CtrCrypt(c, iv, 1, input)
      invariant Remains(c, enc, iv, i, left, y, goal)
      decreases |left|
    {
      var o, next;
      o, y, next := CryptRound(c, enc, iv, i, left, y, goal, ctr[..]);
      Assoc(output, o, CtrCrypt(c, iv, i + 1, next));
      output, left := output + o, next;
      NextCounter(ctr, iv, i);
      i := i + 1;
    }
    PadZStep(left);
    PrefixOfCtr(iv, 1, i);
  }

  lemma PrefixOfCtr(iv: Bytes, i: nat, j: nat)
    requires 7 <= |iv| <= 13
    ensures Ctr(iv, i)[..1 + |iv|] == Ctr(iv, j)[..1 + |iv|] == [Byte(14 - |iv|)] + iv
    ensures Ctr(iv, i)[1 + |iv|..] == BE(i, 15 - |iv|)
  {
  }

  method NextCounter(ctr: array<bv8>, iv: Bytes, ghost i: nat)
    requires 7 <= |iv| <= 13 && ctr.Length == 16 && ctr[..] == Ctr(iv, i)
    modifies ctr
    ensures ctr[..] == Ctr(iv, i + 1)
  {
    var q := 15 - |iv|;
    PrefixOfCtr(iv, i, i + 1);
    assert ctr[..16 - q] == ctr[..][..16 - q] && ctr[16 - q..] == ctr[..][16 - q..];
    IncIsNext(i, q);
    Increment(ctr, q);
    assert ctr[..] == ctr[..16 - q] + ctr[16 - q..];
  }

  lemma {:induction false} BEZero(k: nat)
    ensures BE(0, k) == Repeat(0, k)
    decreases k
  {
    if k > 0 {
      BEZero(k - 1);
      assert BE(0, k) == BE(0, k - 1) + [Byte(0)];
    }
  }

  /** The counter block with its counter set to 0 or 1. */
  method SetCounter(ctr: array<bv8>, iv: Bytes, one: bool)
    requires 7 <= |iv| <= 13 && ctr.Length == 16 && ctr[..1 + |iv|] == [Byte(14 - |iv|)] + iv
    modifies ctr
    ensures ctr[..] == Ctr(iv, if one then 1 else 0)
  {
    var q := 15 - |iv|;
    for i := 0 to q
      invariant ctr[..1 + |iv|] == [Byte(14 - |iv|)] + iv && forall k :: 16 - i <= k < 16 ==> ctr[k] == 0
    {
      ctr[15 - i] := 0;
    }
    if one { ctr[15] := 1; }
    CounterTail(q);
    assert ctr[..] == ctr[..1 + |iv|] + ctr[1 + |iv|..];
    assert ctr[1 + |iv|..] == if one then Repeat(0, q - 1) + [1] else Repeat(0, q);
  }

  lemma CounterTail(q: nat)
    requires q > 0
    ensures BE(0, q) == Repeat(0, q) && BE(1, q) == Repeat(0, q - 1) + [1]
  {
    BEZero(q);
    BEZero(q - 1);
    assert BE(1, q) == BE(0, q - 1) + [Byte(1)] && Byte(1) == Byte(0) + 1 == 1;
  }

  lemma FormatWhole(iv: Bytes, tagLen: nat, add: Bytes, m: Bytes)
    requires 7 <= |iv| <= 13 && tagLen >= 2
    ensures Whole(16, |AddBlocks(add)|) && Whole(16, |PadZ(m)|) && Whole(16, |B0(iv, tagLen, add != [], |m|)|)
    ensures Whole(16, |B0(iv, tagLen, add != [], |m|) + AddBlocks(add)|) && Whole(16, |Format(iv, tagLen, add, m)|)
  {
    PadZWhole(m);
    if add != [] { PadZWhole(BE(|add|, 2) + add); }
    WholeSum(16, 16, |AddBlocks(add)|);
    WholeSum(16, |B0(iv, tagLen, add != [], |m|) + AddBlocks(add)|, |PadZ(m)|);
  }

  /** CBC-MAC of the formatted input. */
  ghost function Mac(c: Cipher, iv: Bytes, tagLen: nat, add: Bytes, m: Bytes): (r: Bytes)
    requires c.Valid() && c.bs == 16 && 7 <= |iv| <= 13 && tagLen >= 2
    ensures |r| == 16
  {
    FormatWhole(iv, tagLen, add, m);
    Chain(c, Repeat(0, 16), Format(iv, tagLen, add, m))
  }

  /** The tag: the MAC under counter block 0, cut to length. */
  ghost function Tag(c: Cipher, iv: Bytes, tagLen: nat, add: Bytes, m: Bytes): (r: Bytes)
    requires c.Valid() && c.bs == 16 && 7 <= |iv| <= 13 && 2 <= tagLen <= 16
    ensures |r| == tagLen
  {
    Xor(Mac(c, iv, tagLen, add, m), c.enc(Ctr(iv, 0)))[..tagLen]
  }

  /** The MAC in the order of the code: first block, additional data, message. */
  lemma MacInSteps(c: Cipher, iv: Bytes, tagLen: nat, add: Bytes, m: Bytes, y1: Bytes, y2: Bytes, y3: Bytes)
    requires c.Valid() && c.bs == 16 && 7 <= |iv| <= 13 && tagLen >= 2
    requires Whole(16, |AddBlocks(add)|) && Whole(16, |PadZ(m)|)
    requires y1 == Chain(c, Repeat(0, 16), B0(iv, tagLen, add != [], |m|))
    requires y2 == Chain(c, y1, AddBlocks(add)) && y3 == Chain(c, y2, PadZ(m))
    ensures y3 == Mac(c, iv, tagLen, add, m)
  {
    FormatWhole(iv, tagLen, add, m);
    var b := B0(iv, tagLen, add != [], |m|);
    ChainAppend(c, Repeat(0, 16), b, AddBlocks(add));
    ChainAppend(c, Repeat(0, 16), b + AddBlocks(add), PadZ(m));
  }

  /** ccm_auth_crypt. */
  method AuthCrypt(c: Cipher, enc: bool, iv: Bytes, add: Bytes, input: Bytes, tagLen: nat)
    returns (r: Result<(Bytes, Bytes)>)
    requires c.Valid() && c.bs == 16
    ensures r.Ok? <==> Accepted(iv, tagLen, add, |input|)
    ensures r.Ok? ==>
      r.value.0 == CtrCrypt(c, iv, 1, input) && r.value.1 == Tag(c, iv, tagLen, add, Plain(c, enc, iv, 1, input))
    ensures !r.Ok? ==> r == BadInput
  {
    if tagLen < 4 || tagLen > 16 || tagLen % 2 != 0 { return BadInput; }
    if |iv| < 7 || |iv| > 13 { return BadInput; }
    if |add| > 0xFF00 { return BadInput; }
    var b, left := FirstBlock(iv, tagLen, add != [], |input|);
    if left > 0 { return BadInput; }
    var output, tag := Run(c, enc, iv, add, input, tagLen, b);
    return Ok((output, tag));
  }

  method Run(c: Cipher, enc: bool, iv: Bytes, add: Bytes, input: Bytes, tagLen: nat, b: Bytes)
    returns (output: Bytes, tag: Bytes)
    requires c.Valid() && c.bs == 16 && Accepted(iv, tagLen, add, |input|) && b == B0(iv, tagLen, add != [], |input|)
    ensures output == CtrCrypt(c, iv, 1, input) && tag == Tag(c, iv, tagLen, add, Plain(c, enc, iv, 1, input))
  {
    assert b + Repeat(0, 0) == b;
    var y1 := UpdateMac(c, Repeat(0, 16), b);
    var y2 := y1;
    if add != [] { y2 := MacAdd(c, y1, add); }
    var ctr := new bv8[16];
    ctr[0] := Byte(14 - |iv|);
    CopyInto(ctr, 1, iv);
    assert ctr[..1 + |iv|] == ctr[..1] + ctr[1..1 + |iv|];
    SetCounter(ctr, iv, true);
    PrefixOfCtr(iv, 1, 0);
    var y3;
    output, y3 := CryptLoop(c, enc, iv, input, y2, ctr);
    MacInSteps(c, iv, tagLen, add, Plain(c, enc, iv, 1, input), y1, y2, y3);
    SetCounter(ctr, iv, false);
    tag := Xor(y3, c.enc(ctr[..]))[..tagLen];
  }

  /** mbedtls_ccm_encrypt_and_tag. */
  method EncryptAndTag(c: Cipher, iv: Bytes, add: Bytes, input: Bytes, tagLen: nat) returns (r: Result<(Bytes, Bytes)>)
    requires c.Valid() && c.bs == 16
    ensures r == Seal(c, iv, add, input, tagLen)
  {
    r := AuthCrypt(c, true, iv, add, input, tagLen);
  }

  /** mbedtls_ccm_auth_decrypt; nothing but zeros is left in the output of a failed call. */
  method AuthDecrypt(c: Cipher, iv: Bytes, add: Bytes, input: Bytes, tag: Bytes) returns (r: Result<()>, output: Bytes)
    requires c.Valid() && c.bs == 16
    ensures Open(c, iv, add, input, tag) ==
      match r { case Ok(_) => Ok(output) case BadInput => BadInput case AuthFailed => AuthFailed }
    ensures r.AuthFailed? ==> output == Repeat(0, |input|)
  {
    output := [];
    var s := AuthCrypt(c, false, iv, add, input, |tag|);
    if !s.Ok? { return BadInput, output; }
    output := s.value.0;
    var diff := Compare(tag, s.value.1);
    if diff != 0 {
      output := Repeat(0, |input|);
      return AuthFailed, output;
    }
    return Ok(()), output;
  }

  /** The comparison in constant time. */
  method Compare(tag: Bytes, check: Bytes) returns (diff: bv8)
    requires |tag| == |check|
    ensures diff == 0 <==> tag == check
  {
    diff := 0;
    for i := 0 to |tag|
      invariant diff == 0 <==> forall k :: 0 <= k < i ==> tag[k] == check[k]
    {
      Differs(diff, tag[i], check[i]);
      diff := diff | (tag[i] ^ check[i]);
    }
  }

  lemma Differs(diff: bv8, x: bv8, y: bv8)
    ensures diff | (x ^ y) == 0 <==> diff == 0 && x == y
  {
  }

  /** What encryption computes. */
  ghost function Seal(c: Cipher, iv: Bytes, add: Bytes, m: Bytes, tagLen: nat): Result<(Bytes, Bytes)>
    requires c.Valid() && c.bs == 16
  {
    if Accepted(iv, tagLen, add, |m|) then Ok((CtrCrypt(c, iv, 1, m), Tag(c, iv, tagLen, add, m))) else BadInput
  }

  /** What decryption computes: the message, if the tag is its tag. */
  ghost function Open(c: Cipher, iv: Bytes, add: Bytes, ct: Bytes, tag: Bytes): Result<Bytes>
    requires c.Valid() && c.bs == 16
  {
    if !Accepted(iv, |tag|, add, |ct|) then BadInput
    else
      var m := CtrCrypt(c, iv, 1, ct);
      if tag == Tag(c, iv, |tag|, add, m) then Ok(m) else AuthFailed
  }

  /**
   RFC 3610: the message is masked by the encrypted counter blocks from 1 on, and the tag is the
   CBC-MAC of the standard's input under the encrypted counter block 0, cut to length. That is what
   the code computes, except for 0xFF00 bytes of additional data.
   */
  lemma SealIsRfc(c: Cipher, iv: Bytes, add: Bytes, m: Bytes, tagLen: nat, a0: Bytes, a: seq<Bytes>)
    requires c.Valid() && c.bs == 16 && Accepted(iv, tagLen, add, |m|) && |add| < 0xFF00
    requires IsCounter(a0, iv, 0) && AreCounters(a, iv, 1) && 16 * |a| >= |m|
    ensures Whole(16, |RfcFormat(iv, tagLen, add, m)|)
    ensures var mac := Chain(c, Repeat(0, 16), RfcFormat(iv, tagLen, add, m));
      Seal(c, iv, add, m, tagLen) == Ok((Xor(m, KeyStream(c, a)[..|m|]), Xor(mac, c.enc(a0))[..tagLen]))
  {
    FormatIsRfc(iv, tagLen, add, m);
    FormatWhole(iv, tagLen, add, m);
    CtrMeans(iv, 0);
    SameCounter(a0, Ctr(iv, 0), iv, 0);
    CtrIsStream(c, iv, 1, m, a);
  }

  /** Decrypting an encryption with its tag returns success and the message. */
  lemma RoundTrip(c: Cipher, iv: Bytes, add: Bytes, m: Bytes, tagLen: nat)
    requires c.Valid() && c.bs == 16 && Accepted(iv, tagLen, add, |m|)
    ensures var s := Seal(c, iv, add, m, tagLen);
      s.Ok? && Open(c, iv, add, s.value.0, s.value.1) == Ok(m)
  {
    CtrTwice(c, iv, 1, m);
  }

  /** And nothing else is accepted: a ciphertext and tag open exactly when they are an encryption. */
  lemma OpensExactly(c: Cipher, iv: Bytes, add: Bytes, ct: Bytes, tag: Bytes, m: Bytes)
    requires c.Valid() && c.bs == 16
    ensures Open(c, iv, add, ct, tag) == Ok(m) <==> Seal(c, iv, add, m, |tag|) == Ok((ct, tag))
  {
    if 7 <= |iv| <= 13 {
      CtrTwice(c, iv, 1, m);
      CtrTwice(c, iv, 1, ct);
    }
  }
}
