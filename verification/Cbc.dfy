/**
 CBC with PKCS#7 padding as a stream: the CBC branch of mbedtls_cipher_update,
 mbedtls_cipher_finish and the padding functions, against one-shot CBC (section 6.2 of NIST
 SP 800-38A, section 6.3 of RFC 5652).
 */
module Cbc {
  import opened Blocks
  import Arith

  datatype Result<T> = Ok(value: T) | FullBlockExpected | InvalidPadding

  /** One block: the output and the next IV. */
  function Step(c: Cipher, enc: bool, iv: Bytes, b: Bytes): (r: (Bytes, Bytes))
    requires |iv| == |b|
    requires |c.dec(b)| == |b|
  {
    if enc then var o := c.enc(Xor(b, iv)); (o, o) else (Xor(c.dec(b), iv), b)
  }

  /** CBC over the whole blocks of msg: the output and the IV left behind. */
  ghost function Cbc(c: Cipher, enc: bool, iv: Bytes, msg: Bytes): (r: (Bytes, Bytes))
    requires c.Valid() && |iv| == c.bs
    ensures |r.1| == c.bs
    decreases |msg|
  {
    if |msg| < c.bs then ([], iv)
    else
      var s := Step(c, enc, iv, msg[..c.bs]);
      var r := Cbc(c, enc, s.1, msg[c.bs..]);
      (s.0 + r.0, r.1)
  }

  lemma {:induction false} CbcAppend(c: Cipher, enc: bool, iv: Bytes, a: Bytes, b: Bytes)
    requires c.Valid() && |iv| == c.bs && Whole(c.bs, |a|)
    ensures |Cbc(c, enc, iv, a).0| == |a|
    ensures Cbc(c, enc, iv, a + b).0 == Cbc(c, enc, iv, a).0 + Cbc(c, enc, Cbc(c, enc, iv, a).1, b).0
    ensures Cbc(c, enc, iv, a + b).1 == Cbc(c, enc, Cbc(c, enc, iv, a).1, b).1
    decreases |a|
  {
    if a == [] {
      assert a + b == b;
      assert Cbc(c, enc, iv, a) == ([], iv);
    } else {
      var h, t := a[..c.bs], a[c.bs..];
      var s := Step(c, enc, iv, h);
      FirstBlock(c, enc, iv, h, t);
      FirstBlock(c, enc, iv, h, t + b);
      SplitAt(a, c.bs);
      Assoc(h, t, b);
      CbcAppend(c, enc, s.1, t, b);
      var u, v := Cbc(c, enc, s.1, t).0, Cbc(c, enc, Cbc(c, enc, s.1, t).1, b).0;
      Assoc(s.0, u, v);
    }
  }

  lemma FirstBlock(c: Cipher, enc: bool, iv: Bytes, h: Bytes, t: Bytes)
    requires c.Valid() && |iv| == |h| == c.bs
    ensures var s := Step(c, enc, iv, h);
      |s.0| == |s.1| == c.bs && Cbc(c, enc, iv, h + t).0 == s.0 + Cbc(c, enc, s.1, t).0 &&
        Cbc(c, enc, iv, h + t).1 == Cbc(c, enc, s.1, t).1
  {
    assert (h + t)[..c.bs] == h && (h + t)[c.bs..] == t;
  }

  /** Decryption undoes encryption block by block. */
  lemma {:induction false} CbcInverse(c: Cipher, iv: Bytes, msg: Bytes)
    requires c.Valid() && |iv| == c.bs && Whole(c.bs, |msg|)
    ensures Cbc(c, false, iv, Cbc(c, true, iv, msg).0).0 == msg
    decreases |msg|
  {
    if msg != [] {
      var b := msg[..c.bs];
      var o := c.enc(Xor(b, iv));
      var rest := Cbc(c, true, o, msg[c.bs..]).0;
      assert Cbc(c, true, iv, msg).0 == o + rest;
      assert (o + rest)[..c.bs] == o && (o + rest)[c.bs..] == rest;
      XorTwice(b, iv);
      CbcInverse(c, o, msg[c.bs..]);
      assert msg == b + msg[c.bs..];
    }
  }

  /** The chaining value before position k: the IV, or the ciphertext block that ends there. */
  ghost function Previous(bs: nat, iv: Bytes, ct: Bytes, k: nat): (r: Bytes)
    requires |iv| == bs && (k == 0 || bs <= k <= |ct|)
    ensures |r| == bs
  {
    if k == 0 then iv else ct[k - bs..k]
  }

  lemma PreviousInTail(bs: nat, iv: Bytes, a: Bytes, b: Bytes)
    requires |iv| == bs && 0 < bs <= |b|
    ensures Previous(bs, iv, a + b, |a| + |b|) == Previous(bs, iv, b, |b|)
  {
  }

  lemma PreviousInHead(bs: nat, iv: Bytes, a: Bytes, b: Bytes)
    requires |iv| == bs && (a == [] || bs <= |a|)
    ensures Previous(bs, iv, a + b, |a|) == Previous(bs, iv, a, |a|)
  {
    if a != [] { assert (a + b)[|a| - bs..|a|] == a[|a| - bs..|a|]; }
  }

  /** The IV that is left behind is the last ciphertext block. */
  lemma {:induction false} LeavesLastBlock(c: Cipher, enc: bool, iv: Bytes, m: Bytes)
    requires c.Valid() && |iv| == c.bs && Whole(c.bs, |m|)
    ensures var r := Cbc(c, enc, iv, m);
      |r.0| == |m| && (m == [] || |m| >= c.bs) && r.1 == Previous(c.bs, iv, if enc then r.0 else m, |m|)
    decreases |m|
  {
    CbcAppend(c, enc, iv, m, []);
    if m != [] {
      var h, t := m[..c.bs], m[c.bs..];
      var s := Step(c, enc, iv, h);
      LeavesLastBlock(c, enc, s.1, t);
      FirstBlock(c, enc, iv, h, t);
      SplitAt(m, c.bs);
      LastOfTwo(c.bs, iv, s.1, if enc then s.0 else h, if enc then Cbc(c, enc, s.1, t).0 else t);
    }
  }

  /** The last block of h + t, where h is the block x. */
  lemma LastOfTwo(bs: nat, iv: Bytes, x: Bytes, h: Bytes, t: Bytes)
    requires |iv| == bs == |x| == |h| && h == x && bs > 0 && (t == [] || |t| >= bs)
    ensures Previous(bs, iv, h + t, |h| + |t|) == Previous(bs, x, t, |t|)
  {
    if t != [] {
      PreviousInTail(bs, iv, h, t);
    } else {
      assert h + t == h && h[0..bs] == h;
    }
  }

  /**
   The definition in section 6.2 of NIST SP 800-38A, block by block: C = CIPH(P xor the C before)
   and P = CIPH^-1(C) xor the C before, with the IV before the first block.
   */
  lemma CbcBlocks(c: Cipher, enc: bool, iv: Bytes, a: Bytes, b: Bytes, t: Bytes)
    requires c.Valid() && |iv| == c.bs && Whole(c.bs, |a|) && |b| == c.bs
    ensures var m, k := a + (b + t), |a|;
      var r := Cbc(c, enc, iv, m).0;
      && |r| >= k + c.bs && (k == 0 || k >= c.bs)
      && r[k..k + c.bs] ==
        if enc then c.enc(Xor(b, Previous(c.bs, iv, r, k))) else Xor(c.dec(b), Previous(c.bs, iv, m, k))
  {
    CbcAppend(c, enc, iv, a, b + t);
    LeavesLastBlock(c, enc, iv, a);
    var x := Cbc(c, enc, iv, a);
    FirstBlock(c, enc, x.1, b, t);
    var s := Step(c, enc, x.1, b);
    var y := Cbc(c, enc, s.1, t).0;
    assert Cbc(c, enc, iv, a + (b + t)).0 == x.0 + (s.0 + y);
    assert (x.0 + (s.0 + y))[|a|..|a| + c.bs] == s.0;
    PreviousInHead(c.bs, iv, x.0, s.0 + y);
    PreviousInHead(c.bs, iv, a, b + t);
  }

  /** What has been done so far, and one more piece. */
  lemma Continue(c: Cipher, enc: bool, iv: Bytes, done: Bytes, out: Bytes, mid: Bytes, more: Bytes)
    requires c.Valid() && |iv| == c.bs && Whole(c.bs, |done|) && (out, mid) == Cbc(c, enc, iv, done)
    ensures |out| == |done| &&
      Cbc(c, enc, iv, done + more) == (out + Cbc(c, enc, mid, more).0, Cbc(c, enc, mid, more).1)
  {
    CbcAppend(c, enc, iv, done, more);
  }

  /** The cbc_func of a cipher (mbedtls_aes_crypt_cbc). */
  method CryptCbc(c: Cipher, enc: bool, iv: Bytes, input: Bytes) returns (output: Bytes, next: Bytes)
    requires c.Valid() && |iv| == c.bs && Whole(c.bs, |input|)
    ensures (output, next) == Cbc(c, enc, iv, input) && |output| == |input|
  {
    output, next := [], iv;
    var left := input;
    ghost var done := [];
    while left != []
      invariant Whole(c.bs, |done|) && Whole(c.bs, |left|) && input == done + left
      invariant (output, next) == Cbc(c, enc, iv, done)
      decreases |left|
    {
      var b := left[..c.bs];
      var o, n := CryptBlock(c, enc, next, b);
      Continue(c, enc, iv, done, output, next, b);
      WholeSum(c.bs, |done|, c.bs);
      SplitAt(left, c.bs);
      Assoc(done, b, left[c.bs..]);
      output, next, left, done := output + o, n, left[c.bs..], done + b;
    }
    assert done == input;
    CbcAppend(c, enc, iv, input, []);
  }

  method CryptBlock(c: Cipher, enc: bool, iv: Bytes, b: Bytes) returns (o: Bytes, next: Bytes)
    requires c.Valid() && |iv| == |b| == c.bs
    ensures (o, next) == Cbc(c, enc, iv, b) && |o| == |next| == c.bs
  {
    if enc {
      o := c.enc(Xor(b, iv));
      next := o;
    } else {
      o := Xor(c.dec(b), iv);
      next := b;
    }
    OneBlock(c, enc, iv, b);
  }

  lemma OneBlock(c: Cipher, enc: bool, iv: Bytes, b: Bytes)
    requires c.Valid() && |iv| == |b| == c.bs
    ensures Cbc(c, enc, iv, b) == Step(c, enc, iv, b)
  {
    assert b[..c.bs] == b && b[c.bs..] == [];
    var s := Step(c, enc, iv, b);
    assert s.0 + [] == s.0;
  }

  /** add_pkcs_padding: what a message of this length lacks to whole blocks, at least one byte. */
  ghost function Pkcs7(bs: nat, msg: Bytes): (r: Bytes)
    requires 0 < bs <= 16
  {
    msg + Padding(bs - |msg| % bs)
  }

  ghost function Padding(n: nat): (r: Bytes)
    requires n <= 16
    ensures |r| == n
  {
    Repeat(n as bv8, n)
  }

  method AddPkcsPadding(output: array<bv8>, outputLen: nat, dataLen: nat)
    requires dataLen <= outputLen <= output.Length && outputLen - dataLen <= 16
    modifies output
    ensures output[..outputLen] == old(output[..dataLen]) + Padding(outputLen - dataLen)
  {
    var n := outputLen - dataLen;
    for i := 0 to n
      invariant output[..dataLen] == old(output[..dataLen])
      invariant forall k :: dataLen <= k < dataLen + i ==> output[k] == n as bv8
    {
      output[dataLen + i] := n as bv8;
    }
    assert output[..outputLen] == output[..dataLen] + output[dataLen..outputLen];
  }

  /** The last byte says how many bytes at the end, itself included, must equal it. */
  ghost predicate WellPadded(input: Bytes) {
    input != [] && 1 <= input[|input| - 1] as int <= |input| &&
    forall i :: |input| - input[|input| - 1] as int <= i < |input| ==> input[i] == input[|input| - 1]
  }

  /** get_pkcs_padding: every byte is looked at, the verdict is gathered in `bad`. */
  method GetPkcsPadding(input: Bytes) returns (r: Result<nat>)
    requires 0 < |input| <= 16
    ensures r == if WellPadded(input) then Ok(|input| - input[|input| - 1] as int) else InvalidPadding
  {
    var paddingLen := input[|input| - 1];
    var bad: bv8 := 0;
    if paddingLen as int > |input| { bad := bad | 1; }
    if paddingLen == 0 { bad := bad | 1; }
    // with unsigned arithmetic a padding longer than the input makes padIdx enormous
    var padIdx: nat := if paddingLen as int > |input| then 0x1_0000_0000 + |input| - paddingLen as int
      else |input| - paddingLen as int;
    ghost var early := bad != 0;
    for i := 0 to |input|
      invariant bad != 0 <==> early || exists k :: padIdx <= k < i && input[k] != paddingLen
    {
      ghost var was := bad;
      bad := bad | (if i >= padIdx then input[i] ^ paddingLen else 0);
      Gathers(was, input[i], paddingLen);
    }
    if bad != 0 { return InvalidPadding; }
    return Ok(|input| - paddingLen as int);
  }

  lemma Gathers(bad: bv8, x: bv8, y: bv8)
    ensures bad | (x ^ y) != 0 <==> bad != 0 || x != y
    ensures bad | 0 == bad
  {
  }

  /** The CBC part of mbedtls_cipher_context_t. */
  class Context {
    const c: Cipher
    const enc: bool
    const padding: bool            // PKCS#7, or add_padding == NULL
    var iv: Bytes
    const data: array<bv8>         // unprocessed_data
    var len: nat                   // unprocessed_len

    constructor (c: Cipher, enc: bool, padding: bool, iv: Bytes)
      requires c.Valid() && |iv| == c.bs
      ensures this.c == c && this.enc == enc && this.padding == padding && fresh(data)
      ensures Stream(iv, [], [])
    {
      this.c, this.enc, this.padding, this.iv := c, enc, padding, iv;
      data, len := new bv8[16], 0;
      new;
      NothingYet(iv);
    }

    lemma NothingYet(iv0: Bytes)
      requires Valid() && len == 0 && iv0 == iv
      ensures Stream(iv0, [], [])
    {
      assert Cbc(c, enc, iv0, []) == ([], iv0);
    }

    ghost predicate Valid()
      reads this
    {
      c.Valid() && data.Length == 16 && |iv| == c.bs && len <= c.bs
    }

    /** `done` has been put through CBC, with `out` as the result. */
    ghost predicate Processed(iv0: Bytes, done: Bytes, out: Bytes)
      reads this
    {
      Valid() && |iv0| == c.bs && Whole(c.bs, |done|) && (out, iv) == Cbc(c, enc, iv0, done)
    }

    /**
     Of all the bytes fed so far the last ones are held back: less than a block when encrypting,
     and a nonempty piece of at most a block, if there is any input, when decrypting.
     */
    ghost predicate Stream(iv0: Bytes, fed: Bytes, out: Bytes)
      reads this, data
    {
      && Valid() && len <= |fed| && data[..len] == fed[|fed| - len..]
      && (if enc then len < c.bs else fed != [] ==> len > 0)
      && Processed(iv0, fed[..|fed| - len], out)
    }

    /** The CBC branch of mbedtls_cipher_update. */
    method Update(input: Bytes, ghost iv0: Bytes, ghost fed: Bytes, ghost out: Bytes) returns (output: Bytes)
      requires Stream(iv0, fed, out)
      modifies this`iv, this`len, data
      ensures Stream(iv0, fed + input, out + output)
    {
      if (!enc && |input| <= c.bs - len) || (enc && |input| < c.bs - len) {
        Cache(input);
        Held(fed, input, old(len));
        output := [];
        assert out + output == out;
      } else {
        output := Crypt(input, iv0, fed, out);
      }
    }

    lemma Held(fed: Bytes, input: Bytes, n: nat)
      requires n <= |fed|
      ensures (fed + input)[..|fed| - n] == fed[..|fed| - n] && (fed + input)[|fed| - n..] == fed[|fed| - n..] + input
    {
    }

    method Crypt(input: Bytes, ghost iv0: Bytes, ghost fed: Bytes, ghost out: Bytes) returns (output: Bytes)
      requires Stream(iv0, fed, out) && (if enc then |input| >= c.bs - len else |input| > c.bs - len)
      modifies this`iv, this`len, data
      ensures Stream(iv0, fed + input, out + output)
    {
      ghost var n := len;
      var first, left := Flush(input, iv0, fed[..|fed| - len], out);
      ghost var done := fed[..|fed| - n] + fed[|fed| - n..] + input[..|input| - |left|];
      assert done + left == fed + input;
      var more := Rest(left, iv0, done, out + first);
      Assoc(out, first, more);
      output := first + more;
    }

    /** What is left once the cache is empty. */
    method Rest(left: Bytes, ghost iv0: Bytes, ghost done: Bytes, ghost out: Bytes) returns (output: Bytes)
      requires Processed(iv0, done, out) && len == 0 && (!enc ==> left != [])
      modifies this`iv, this`len, data
      ensures Stream(iv0, done + left, out + output)
    {
      var bulk := Release(left);
      output := Bulk(bulk, iv0, done, out);
      Held(done + bulk, left[|left| - len..], 0);
      SplitAt(left, |left| - len);
      Assoc(done, bulk, left[|left| - len..]);
    }

    method Cache(input: Bytes)
      requires Valid() && len + |input| <= c.bs
      modifies this`len, data
      ensures Valid() && len == old(len) + |input| && data[..len] == old(data[..len]) + input
    {
      CopyInto(data, len, input);
      assert data[..len + |input|] == data[..len] + data[len..len + |input|];
      len := len + |input|;
    }

    /** What is held back is filled up to a block and encrypted or decrypted. */
    method Flush(input: Bytes, ghost iv0: Bytes, ghost done: Bytes, ghost out: Bytes)
      returns (output: Bytes, left: Bytes)
      requires Processed(iv0, done, out) && |input| >= c.bs - len
      modifies this`iv, this`len, data
      ensures len == 0 && |left| <= |input| && left == input[|input| - |left|..]
      ensures |left| == (if old(len) == 0 then |input| else |input| - (c.bs - old(len)))
      ensures Processed(iv0, done + old(data[..len]) + input[..|input| - |left|], out + output)
    {
      output, left := [], input;
      if len != 0 {
        var n := c.bs - len;
        Cache(input[..n]);
        assert data[..len] == old(data[..len]) + input[..n];
        ghost var mid := iv;
        output, iv := CryptCbc(c, enc, iv, data[..c.bs]);
        Continue(c, enc, iv0, done, out, mid, data[..c.bs]);
        WholeSum(c.bs, |done|, c.bs);
        Assoc(done, old(data[..len]), input[..n]);
        len, left := 0, input[n..];
      } else {
        assert done + old(data[..len]) + input[..0] == done && out + output == out;
      }
    }

    /** The end of the input is held back: what does not fill a block, or the last block when decrypting. */
    method Release(left: Bytes) returns (bulk: Bytes)
      requires Valid() && len == 0
      modifies this`len, data
      ensures Valid() && len <= |left| && bulk == left[..|left| - len] && data[..len] == left[|left| - len..]
      ensures Whole(c.bs, |bulk|) && (if enc then len < c.bs else left != [] ==> len > 0)
    {
      bulk := left;
      if left != [] {
        var n := |left| % c.bs;
        WholeRest(c.bs, |left|);
        if n == 0 && !enc { n := c.bs; }
        CopyInto(data, 0, left[|left| - n..]);
        len := len + n;
        bulk := left[..|left| - n];
      }
    }

    /** The blocks in between go through at once. */
    method Bulk(bulk: Bytes, ghost iv0: Bytes, ghost done: Bytes, ghost out: Bytes) returns (output: Bytes)
      requires Processed(iv0, done, out) && Whole(c.bs, |bulk|)
      modifies this`iv
      ensures Processed(iv0, done + bulk, out + output)
    {
      output := [];
      if bulk != [] {
        ghost var mid := iv;
        output, iv := CryptCbc(c, enc, iv, bulk);
        Continue(c, enc, iv0, done, out, mid, bulk);
        WholeSum(c.bs, |done|, |bulk|);
      } else {
        assert done + bulk == done && out + output == out;
      }
    }

    /** mbedtls_cipher_finish: what it adds to the output so far completes the one-shot result. */
    method Finish(ghost iv0: Bytes, ghost fed: Bytes, ghost out: Bytes) returns (r: Result<Bytes>)
      requires Stream(iv0, fed, out)
      modifies this`iv, data
      ensures OneShot(c, enc, padding, iv0, fed) == if r.Ok? then Ok(out + r.value) else r
    {
      SplitAt(fed, |fed| - len);
      WholeSum(c.bs, |fed| - len, len);
      if enc {
        if !padding {
          assert out + [] == out;
          assert fed[..|fed| - 0] == fed;
          if len != 0 { return FullBlockExpected; }
          return Ok([]);
        }
        r := FinishPadded(iv0, fed, out);
      } else {
        if len != c.bs {
          if !padding && len == 0 {
            assert fed == [] && out + [] == out;
            return Ok([]);
          }
          return FullBlockExpected;
        }
        r := FinishUnpad(iv0, fed, out);
      }
    }

    method FinishPadded(ghost iv0: Bytes, ghost fed: Bytes, ghost out: Bytes) returns (r: Result<Bytes>)
      requires Stream(iv0, fed, out) && enc && padding
      modifies this`iv, data
      ensures r.Ok? && OneShot(c, enc, padding, iv0, fed) == Ok(out + r.value)
    {
      ghost var done, held, mid := fed[..|fed| - len], fed[|fed| - len..], iv;
      AddPkcsPadding(data, c.bs, len);
      var output;
      output, iv := CryptCbc(c, enc, iv, data[..c.bs]);
      PadsWhole(c.bs, done, held);
      Continue(c, enc, iv0, done, out, mid, held + Padding(c.bs - len));
      SplitAt(fed, |fed| - len);
      Assoc(done, held, Padding(c.bs - len));
      r := Ok(output);
    }

    method FinishUnpad(ghost iv0: Bytes, ghost fed: Bytes, ghost out: Bytes) returns (r: Result<Bytes>)
      requires Stream(iv0, fed, out) && !enc && len == c.bs
      modifies this`iv
      ensures OneShot(c, enc, padding, iv0, fed) == if r.Ok? then Ok(out + r.value) else r
    {
      ghost var done, held, mid := fed[..|fed| - len], fed[|fed| - len..], iv;
      var output;
      output, iv := CryptCbc(c, enc, iv, data[..c.bs]);
      Continue(c, enc, iv0, done, out, mid, held);
      SplitAt(fed, |fed| - len);
      WholeSum(c.bs, |done|, len);
      r := Strip(output, padding, out);
    }
  }

  /** The get_padding function of either mode, on the last block. */
  method Strip(b: Bytes, padding: bool, ghost head: Bytes) returns (r: Result<Bytes>)
    requires 0 < |b| <= 16
    ensures (if padding then Unpad(|b|, head + b) else Ok(head + b)) == if r.Ok? then Ok(head + r.value) else r
  {
    if !padding { return Ok(b); }
    UnpadTail(|b|, head, b);
    var n := GetPkcsPadding(b);
    if !n.Ok? { return InvalidPadding; }
    return Ok(b[..n.value]);
  }

  /** One-shot CBC, padded or not. */
  ghost function OneShot(c: Cipher, enc: bool, padding: bool, iv: Bytes, msg: Bytes): Result<Bytes>
    requires c.Valid() && |iv| == c.bs
  {
    if enc then
      if padding then Ok(Cbc(c, true, iv, Pkcs7(c.bs, msg)).0)
      else if Whole(c.bs, |msg|) then Ok(Cbc(c, true, iv, msg).0)
      else FullBlockExpected
    else if !Whole(c.bs, |msg|) || (padding && msg == []) then FullBlockExpected
    else
      var p := Cbc(c, false, iv, msg).0;
      if padding then Unpad(c.bs, p) else Ok(p)
  }

  ghost function Unpad(bs: nat, p: Bytes): Result<Bytes>
    requires 0 < bs
  {
    if |p| >= bs && WellPadded(p[|p| - bs..]) then Ok(p[..|p| - p[|p| - 1] as int]) else InvalidPadding
  }

  /**
   When a message is refused: an incomplete block where none may be, nothing at all to take a
   padding off, or a last block of plaintext that does not end in n bytes of value n.
   */
  lemma RefusedExactly(c: Cipher, enc: bool, padding: bool, iv: Bytes, msg: Bytes)
    requires c.Valid() && |iv| == c.bs
    ensures var r := OneShot(c, enc, padding, iv, msg);
      && (r.FullBlockExpected? <==>
        (if enc then !padding && |msg| % c.bs != 0 else |msg| % c.bs != 0 || (padding && msg == [])))
      && (r.InvalidPadding? ==> !enc && padding && |msg| >= c.bs)
      && (!enc && padding && |msg| >= c.bs && |msg| % c.bs == 0 ==>
        var p := Cbc(c, false, iv, msg).0;
        |p| == |msg| && (r.InvalidPadding? <==> !WellPadded(p[|p| - c.bs..])))
  {
    WholeRest(c.bs, |msg|);
    if Whole(c.bs, |msg|) { CbcAppend(c, enc, iv, msg, []); }
  }

  /** What is added to a message: 1 to bs bytes that hold their number and fill up the last block. */
  lemma PaddingFills(bs: nat, msg: Bytes)
    requires 0 < bs <= 16
    ensures var p := Pkcs7(bs, msg); var n := |p| - |msg|;
      && msg <= p && 1 <= n <= bs && Whole(bs, |p|) && forall i :: |msg| <= i < |p| ==> p[i] as int == n
  {
    PaddedIsWhole(bs, msg);
    SmallByte(bs - |msg| % bs);
  }

  lemma PadsWhole(bs: nat, done: Bytes, held: Bytes)
    requires 0 < bs <= 16 && Whole(bs, |done|) && |held| < bs
    ensures Pkcs7(bs, done + held) == done + held + Padding(bs - |held|)
  {
    WholeRest(bs, |done|);
    assert |done| % bs == 0;
    RestOf(bs, |done|, |held|);
  }

  lemma RestOf(bs: nat, m: nat, n: nat)
    requires bs > 0 && m % bs == 0 && n < bs
    ensures (m + n) % bs == n
  {
    Arith.DivModUnique(m + n, bs, m / bs, n);
  }

  /** Streaming equals one-shot: any number of updates, split in any way, and a finish. */
  method CryptChunks(c: Cipher, enc: bool, padding: bool, iv: Bytes, chunks: seq<Bytes>) returns (r: Result<Bytes>)
    requires c.Valid() && |iv| == c.bs
    ensures r == OneShot(c, enc, padding, iv, Flatten(chunks))
  {
    var ctx := new Context(c, enc, padding, iv);
    var out := [];
    ghost var fed := [];
    for i := 0 to |chunks|
      invariant ctx.c == c && ctx.enc == enc && ctx.padding == padding && fresh(ctx) && fresh(ctx.data)
      invariant fed == Flatten(chunks[..i]) && ctx.Stream(iv, fed, out)
    {
      var o := ctx.Update(chunks[i], iv, fed, out);
      FlattenStep(chunks, i);
      out, fed := out + o, fed + chunks[i];
    }
    assert chunks[..|chunks|] == chunks;
    var last := ctx.Finish(iv, fed, out);
    r := if last.Ok? then Ok(out + last.value) else last;
  }

  /** What is decrypted, under any split, is what was encrypted, under any other. */
  lemma RoundTrip(c: Cipher, padding: bool, iv: Bytes, msg: Bytes)
    requires c.Valid() && |iv| == c.bs && (padding || Whole(c.bs, |msg|))
    ensures OneShot(c, true, padding, iv, msg).Ok?
    ensures OneShot(c, false, padding, iv, OneShot(c, true, padding, iv, msg).value) == Ok(msg)
  {
    var p := if padding then Pkcs7(c.bs, msg) else msg;
    if padding { PaddedIsWhole(c.bs, msg); }
    CbcInverse(c, iv, p);
    CbcAppend(c, true, iv, p, []);
    if padding { UnpadPadded(c.bs, msg); }
  }

  lemma PaddedIsWhole(bs: nat, msg: Bytes)
    requires 0 < bs <= 16
    ensures Whole(bs, |Pkcs7(bs, msg)|) && |Pkcs7(bs, msg)| >= bs
  {
    var r := |msg| % bs;
    WholeRest(bs, |msg|);
    WholeSum(bs, |msg| - r, bs);
    assert |Pkcs7(bs, msg)| == |msg| - r + bs;
  }

  lemma UnpadTail(bs: nat, head: Bytes, b: Bytes)
    requires 0 < bs == |b|
    ensures Unpad(bs, head + b) == if WellPadded(b) then Ok(head + b[..bs - b[bs - 1] as int]) else InvalidPadding
  {
    var p := head + b;
    assert p[|p| - bs..] == b && p[|p| - 1] == b[bs - 1];
    if WellPadded(b) {
      var n := b[bs - 1] as int;
      assert p[..|p| - n] == head + b[..bs - n];
    }
  }

  lemma SmallByte(n: nat)
    requires n <= 16
    ensures n as bv8 as int == n
  {
  }

  lemma PaddedBlock(held: Bytes, n: nat)
    requires 0 < n && |held| + n <= 16
    ensures WellPadded(held + Padding(n)) && (held + Padding(n))[|held| + n - 1] as int == n &&
      (held + Padding(n))[..|held|] == held
  {
    var b := held + Padding(n);
    SmallByte(n);
    assert b[|b| - 1] == n as bv8;
  }

  lemma UnpadPadded(bs: nat, msg: Bytes)
    requires 0 < bs <= 16
    ensures Unpad(bs, Pkcs7(bs, msg)) == Ok(msg)
  {
    var r := |msg| % bs;
    WholeRest(bs, |msg|);
    var head, held := msg[..|msg| - r], msg[|msg| - r..];
    SplitAt(msg, |msg| - r);
    Assoc(head, held, Padding(bs - r));
    UnpadHeld(bs, head, held);
  }

  lemma UnpadHeld(bs: nat, head: Bytes, held: Bytes)
    requires |held| < bs <= 16
    ensures Unpad(bs, head + (held + Padding(bs - |held|))) == Ok(head + held)
  {
    var n := bs - |held|;
    PaddedBlock(held, n);
    UnpadTail(bs, head, held + Padding(n));
  }

  /** A block is accepted exactly when it is some data with the padding of its length. */
  lemma AcceptsExactly(b: Bytes, n: nat)
    requires 0 < |b| <= 16 && 0 < n <= |b|
    ensures WellPadded(b) && b[|b| - 1] as int == n <==> b == b[..|b| - n] + Padding(n)
  {
    var k := |b| - n;
    if WellPadded(b) && b[|b| - 1] as int == n {
      SameByte(b[|b| - 1], n);
      assert b == b[..k] + Padding(n);
    }
    if b == b[..k] + Padding(n) { PaddedBlock(b[..k], n); }
  }

  lemma SameByte(x: bv8, n: nat)
    requires x as int == n
    ensures x == n as bv8
  {
  }
}
