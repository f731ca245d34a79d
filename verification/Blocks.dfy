/** Bytes, blocks and an arbitrary block cipher: a permutation of the blocks and its inverse. */
module Blocks {
  import Arith

  type Bytes = seq<bv8>

  datatype Cipher = Cipher(bs: nat, enc: Bytes -> Bytes, dec: Bytes -> Bytes) {
    ghost predicate Valid() {
      && 0 < bs <= 16
      && (forall b: Bytes {:trigger enc(b)} :: |b| == bs ==> |enc(b)| == bs && dec(enc(b)) == b)
      && (forall b: Bytes {:trigger dec(b)} :: |b| == bs ==> |dec(b)| == bs)
    }
  }

  function Xor(a: Bytes, b: Bytes): (r: Bytes)
    requires |a| == |b|
    ensures |r| == |a|
  {
    seq(|a|, i requires 0 <= i < |a| => a[i] ^ b[i])
  }

  lemma XorTwice(a: Bytes, b: Bytes)
    requires |a| == |b|
    ensures Xor(Xor(a, b), b) == a && Xor(a, b) == Xor(b, a)
  {
    forall i | 0 <= i < |a|
      ensures Xor(Xor(a, b), b)[i] == a[i] && Xor(a, b)[i] == Xor(b, a)[i]
    {
      XorTwiceByte(a[i], b[i]);
    }
  }

  lemma XorTwiceByte(a: bv8, b: bv8)
    ensures (a ^ b) ^ b == a && a ^ b == b ^ a
  {
  }

  lemma Assoc(a: Bytes, b: Bytes, c: Bytes)
    ensures a + (b + c) == (a + b) + c
  {
  }

  lemma SplitAt(a: Bytes, k: nat)
    requires k <= |a|
    ensures a == a[..k] + a[k..]
  {
  }

  function Repeat(x: bv8, n: nat): (r: Bytes)
    ensures |r| == n && forall i :: 0 <= i < n ==> r[i] == x
  {
    seq(n, _ => x)
  }

  /** n is a number of whole blocks. */
  predicate Whole(bs: nat, n: nat)
    requires bs > 0
  {
    n == 0 || (n >= bs && Whole(bs, n - bs))
  }

  lemma {:induction false} WholeSum(bs: nat, m: nat, n: nat)
    requires bs > 0 && Whole(bs, m)
    ensures Whole(bs, m + n) <==> Whole(bs, n)
  {
    if m > 0 {
      WholeSum(bs, m - bs, n);
      assert m - bs + n == m + n - bs;
    }
  }

  lemma {:induction false} WholeRest(bs: nat, n: nat)
    requires bs > 0
    ensures n % bs <= n && Whole(bs, n - n % bs) && (Whole(bs, n) <==> n % bs == 0)
  {
    if n >= bs {
      assert (n - bs) % bs == n % bs by { ModMinus(bs, n); }
      WholeRest(bs, n - bs);
      var r := n % bs;
      assert Whole(bs, n - r) by { assert n - r >= bs && n - r - bs == n - bs - r; }
    }
  }

  lemma ModMinus(bs: nat, n: nat)
    requires 0 < bs <= n
    ensures (n - bs) % bs == n % bs
  {
    var q := n / bs;
    assert (n - bs) == (q - 1) * bs + n % bs by { assert (q - 1) * bs == q * bs - bs; }
    Arith.DivModUnique(n - bs, bs, q - 1, n % bs);
  }

  /** memcpy into a buffer. */
  method CopyInto(dst: array<bv8>, off: nat, src: Bytes)
    requires off + |src| <= dst.Length
    modifies dst
    ensures dst[..off] == old(dst[..off]) && dst[off..off + |src|] == src &&
      dst[off + |src|..] == old(dst[off + |src|..])
  {
    for i := 0 to |src|
      invariant dst[..off] == old(dst[..off]) && dst[off..off + i] == src[..i] && dst[off + i..] == old(dst[off + i..])
    {
      dst[off + i] := src[i];
      assert dst[off..off + i + 1] == dst[off..off + i] + [src[i]];
      assert forall k :: off + i + 1 <= k < dst.Length ==> dst[k] == old(dst[off + i..])[k - off - i];
    }
  }

  ghost function Flatten(chunks: seq<Bytes>): Bytes {
    if chunks == [] then [] else Flatten(chunks[..|chunks| - 1]) + chunks[|chunks| - 1]
  }

  lemma FlattenStep(chunks: seq<Bytes>, i: nat)
    requires i < |chunks|
    ensures Flatten(chunks[..i + 1]) == Flatten(chunks[..i]) + chunks[i]
  {
    assert chunks[..i + 1][..i] == chunks[..i];
  }

  /** CBC-MAC: the chaining value after whole blocks. */
  ghost function Chain(c: Cipher, x: Bytes, m: Bytes): (r: Bytes)
    requires c.Valid() && |x| == c.bs && Whole(c.bs, |m|)
    ensures |r| == c.bs
    decreases |m|
  {
    if m == [] then x else Chain(c, c.enc(Xor(m[..c.bs], x)), m[c.bs..])
  }

  lemma {:induction false} ChainAppend(c: Cipher, x: Bytes, a: Bytes, b: Bytes)
    requires c.Valid() && |x| == c.bs && Whole(c.bs, |a|) && Whole(c.bs, |b|)
    ensures Whole(c.bs, |a + b|) && Chain(c, x, a + b) == Chain(c, Chain(c, x, a), b)
    decreases |a|
  {
    WholeSum(c.bs, |a|, |b|);
    if a == [] {
      assert a + b == b;
    } else {
      assert (a + b)[..c.bs] == a[..c.bs] && (a + b)[c.bs..] == a[c.bs..] + b;
      ChainAppend(c, c.enc(Xor(a[..c.bs], x)), a[c.bs..], b);
    }
  }

  lemma ChainBlock(c: Cipher, x: Bytes, m: Bytes, b: Bytes)
    requires c.Valid() && |x| == c.bs && Whole(c.bs, |m|) && |b| == c.bs
    ensures Whole(c.bs, |m + b|) && Chain(c, x, m + b) == c.enc(Xor(b, Chain(c, x, m)))
  {
    ChainAppend(c, x, m, b);
    assert b[..c.bs] == b && b[c.bs..] == [];
  }
}
