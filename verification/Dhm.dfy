/** The blinded Diffie-Hellman secret of dhm.c: state Vi, Vf, pX and RP across calls. */
module Dhm {
  import opened Options
  import opened Arith
  import opened Primes
  import opened Limbs
  import opened BigNum
  import opened Compare
  import opened AddSub
  import opened Multiply
  import opened Shift
  import opened Division
  import opened ExpMod
  import opened GcdInv
  import opened MillerRabin

  /** Vf undoes what Vi does to an x-th power. */
  ghost predicate Unblinds(vi: int, vf: int, x: nat, p: int)
    requires p > 0
  {
    Cong(Pow(vi, x) * vf, 1, p)
  }

  lemma OddPrime(p: int)
    requires Prime(p) && p > 2
    ensures p % 2 == 1
  {
    DividesMod(2, p);
  }

  /** Squaring both blinding values keeps them a pair. */
  lemma SquaredPair(vi: int, vf: int, x: nat, p: int)
    requires p > 0 && Unblinds(vi, vf, x, p)
    ensures Unblinds((vi * vi) % p, (vf * vf) % p, x, p)
  {
    var a, b := (vi * vi) % p, (vf * vf) % p;
    CongMod(vi * vi, p);
    CongMod(vf * vf, p);
    CongPow(a, vi * vi, x, p);
    PowMulBase(vi, vi, x);
    var w := Pow(vi, x);
    CongMul(Pow(a, x), w * w, b, vf * vf, p);
    MulSwap(w, w, vf, vf);
    CongMul(w * vf, 1, w * vf, 1, p);
  }

  /** An inverse raised to x unblinds. */
  lemma InversePair(vi: int, inv: int, vf: int, x: nat, p: int)
    requires p > 1 && (inv * vi) % p == 1 && vf == Pow(inv, x) % p
    ensures Unblinds(vi, vf, x, p)
  {
    ModSmall(1, p);
    CongPow(inv * vi, 1, x, p);
    PowOne(x);
    PowMulBase(inv, vi, x);
    CongMod(Pow(inv, x), p);
    CongMul(vf, Pow(inv, x), Pow(vi, x), Pow(vi, x), p);
  }

  /** The value calc_secret ends with, for peer value y. */
  function BlindedSecret(y: int, x: nat, vi: int, vf: int, p: int): int
    requires p > 0
  {
    (Pow((y * vi) % p, x) % p * vf) % p
  }

  lemma BlindedResidue(y: int, x: nat, vi: int, vf: int, p: int)
    requires p > 0
    ensures Cong(BlindedSecret(y, x, vi, vf, p), Pow(y, x) * (Pow(vi, x) * vf), p)
  {
    var b := (y * vi) % p;
    CongMod(y * vi, p);
    CongPow(b, y * vi, x, p);
    PowMulBase(y, vi, x);
    CongMod(Pow(b, x), p);
    var k := Pow(b, x) % p;
    CongMul(k, Pow(y, x) * Pow(vi, x), vf, vf, p);
    MulAssoc(Pow(y, x), Pow(vi, x), vf);
    CongMod(k * vf, p);
  }

  /** Blinding is transparent exactly when the pair is one: for y prime to p there is no other way. */
  lemma TransparentExactly(y: nat, x: nat, vi: int, vf: int, p: int)
    requires Prime(p) && !Divides(p, y)
    ensures BlindedSecret(y, x, vi, vf, p) == Pow(y, x) % p <==> Unblinds(vi, vf, x, p)
  {
    var w, q := Pow(vi, x) * vf, Pow(y, x);
    BlindedResidue(y, x, vi, vf, p);
    CongMod(q, p);
    var k := Pow((y * vi) % p, x) % p * vf;
    DivModFacts(k, p);
    DivModFacts(q, p);
    if Unblinds(vi, vf, x, p) {
      CongMul(q, q, w, 1, p);
      CongUnique(k % p, q % p, p);
    } else if k % p == q % p {
      DividesCong(p, q * w, q);
      assert q * w - q == q * (w - 1) by { MulDist(q, w, -1); }
      PowPrime(y, x, p);
      EuclidLemma(p, q, w - 1);
      DividesCong(p, w, 1);
    }
  }

  lemma {:induction false} PowPrime(y: nat, x: nat, p: int)
    requires Prime(p) && !Divides(p, y)
    ensures !Divides(p, Pow(y, x))
  {
    if x == 0 {
      if Divides(p, 1) { DividesLe(p, 1); }
    } else {
      PowPrime(y, x - 1, p);
      if Divides(p, Pow(y, x)) { EuclidLemma(p, y, Pow(y, x - 1)); }
    }
  }

  /** With X = 0 and values that were never set the blinded secret is 0; the true one is 1. */
  lemma UnsetPairFails(y: nat, p: int)
    requires p > 1
    ensures BlindedSecret(y, 0, 0, 0, p) == 0 && Pow(y, 0) % p == 1
  {
    ModSmall(0, p);
    ModSmall(1, p);
    assert Pow((y * 0) % p, 0) == 1;
  }

  /** A pair whose first value is 1 has 1 as its second. */
  lemma UnitPair(vf: int, x: nat, p: int)
    requires p > 1 && 0 <= vf < p && Unblinds(1, vf, x, p)
    ensures vf == 1
  {
    PowOne(x);
    CongUnique(vf, 1, p);
  }

  /** The secret after a failed draw has left v beside Vf = 1: right exactly when v^(2X) is 1. */
  lemma StaleSecret(y: nat, x: nat, v: int, p: int)
    requires Prime(p) && !Divides(p, y)
    ensures BlindedSecret(y, x, (v * v) % p, 1, p) == Pow(y, x) % p <==> Cong(Pow(v * v, x), 1, p)
  {
    var a := (v * v) % p;
    TransparentExactly(y, x, a, 1, p);
    CongMod(v * v, p);
    CongPow(a, v * v, x, p);
  }

  /** For instance 1 instead of 2 for P = 7, X = 1, a peer value of 2 and a left-over 2. */
  lemma StaleExample()
    ensures BlindedSecret(2, 1, (2 * 2) % 7, 1, 7) == 1 && Pow(2, 1) % 7 == 2
  {
    assert Pow(1, 1) == 1 && Pow(2, 1) == 2;
    assert (2 * 4) % 7 == 1;
  }

  class Context {
    const P: Mpi
    const X: Mpi
    const GY: Mpi
    const K: Mpi
    const RP: Mpi
    const Vi: Mpi
    const Vf: Mpi
    const pX: Mpi

    ghost function Fields(): set<Mpi> {
      {P, X, GY, K, RP, Vi, Vf, pX}
    }

    /** Distinct numbers, an odd prime modulus, a right or empty cache. */
    ghost predicate Valid()
      reads Fields()
    {
      && X != P && GY !in {P, X} && K !in {P, X, GY} && RP !in {P, X, GY, K} && Vi !in {P, X, GY, K, RP}
      && Vf !in {P, X, GY, K, RP, Vi} && pX !in {P, X, GY, K, RP, Vi, Vf}
      && P.Valid() && X.Valid() && GY.Valid() && Vi.Valid() && Vf.Valid() && pX.Valid()
      && P.p != [] && P.Value() > 2 && Prime(P.Value())
      && (RP.p != [] ==> IsRR(RP, P))
      && pX.Value() >= 0 && 0 <= Vi.Value() < P.Value() && 0 <= Vf.Value() < P.Value()
    }

    /** The blinding values unblind for the X remembered. */
    ghost predicate Good()
      requires P.Value() > 0 && pX.Value() >= 0
      reads P, pX, Vi, Vf
    {
      Unblinds(Vi.Value(), Vf.Value(), pX.Value(), P.Value())
    }

    /** No X has been remembered and the blinding values were never set. */
    ghost predicate Unset()
      reads pX, Vi, Vf
    {
      pX.Value() == 0 && Vi.Value() == 0 && Vf.Value() == 0
    }

    /** mbedtls_dhm_init */
    constructor ()
      ensures fresh(Fields()) && |Fields()| == 8 && Unset() && forall f :: f in Fields() ==> f.Valid() && f.p == []
    {
      P := new Mpi();
      X := new Mpi();
      GY := new Mpi();
      K := new Mpi();
      RP := new Mpi();
      Vi := new Mpi();
      Vf := new Mpi();
      pX := new Mpi();
    }

    /** dhm_update_blinding, from any state of the blinding values. */
    method UpdateBlinding(rng: seq<seq<Limb>>) returns (ret: Status)
      requires Valid() && X.Value() >= 0
      requires forall i :: 0 <= i < |rng| ==> rng[i] != []
      modifies Vi, Vf, pX, RP
      ensures Valid() && pX.Value() == X.Value() && (ret == Ok || ret == NotAcceptable)
      ensures old(pX.Value()) != X.Value() ==> ret == Ok && Vi.Value() == 1 && Vf.Value() == 1 && Good()
      ensures old(pX.Value()) == X.Value() && old(Vi.Value()) != 1 ==>
        ret == Ok && Vi.Value() == old(Vi.Value() * Vi.Value()) % P.Value()
      ensures old(pX.Value()) == X.Value() && old(Vi.Value()) != 1 ==>
        Vf.Value() == old(Vf.Value() * Vf.Value()) % P.Value()
      ensures old(pX.Value()) == X.Value() && old(Vi.Value()) == 1 ==>
        (ret == Ok <==> HasDraw(rng, P.Value())) && Vi.Value() == Drawn(rng, P.Value(), 1) &&
        if ret == Ok then Good() else Vf.Value() == old(Vf.Value())
      ensures old(Good()) && ret == Ok ==> Good()
    {
      var c := CmpMpi(X, pX);
      if c != 0 {
        Remember();
        return Ok;
      }
      c := CmpInt(Vi, 1);
      if c != 0 {
        if Good() { SquaredPair(Vi.Value(), Vf.Value(), X.Value(), P.Value()); }
        SquareMod(Vi, P);
        SquareMod(Vf, P);
        return Ok;
      }
      ret := FreshPair(Vi, Vf, X, P, RP, rng);
    }

    /** A new X: no blinding this time. */
    method Remember()
      requires Valid() && X.Value() >= 0
      modifies Vi, Vf, pX
      ensures Valid() && pX.Value() == X.Value() && Vi.Value() == 1 && Vf.Value() == 1 && Good()
    {
      pX.Copy(X);
      Vi.Lset(1);
      Vf.Lset(1);
      PowOne(X.Value());
    }

    /**
     mbedtls_dhm_calc_secret, up to the export of K. Without a generator nothing is blinded.
     */
    method CalcSecret(rng: Option<seq<seq<Limb>>>) returns (ret: Status)
      requires Valid() && X.Value() >= 0
      requires rng.Some? ==> forall i :: 0 <= i < |rng.value| ==> rng.value[i] != []
      modifies K, Vi, Vf, pX, RP
      ensures Valid()
      ensures ret == BadInput <==> !(2 <= GY.Value() <= P.Value() - 2)
      ensures ret == BadInput || rng.None? ==>
        pX.Value() == old(pX.Value()) && Vi.Value() == old(Vi.Value()) && Vf.Value() == old(Vf.Value())
      ensures ret == Ok || ret == BadInput || (ret == NotAcceptable && rng.Some?)
      ensures ret == Ok ==> K.Valid() && 0 <= K.Value() < P.Value()
      ensures ret == Ok && rng.None? ==> K.Value() == Pow(GY.Value(), X.Value()) % P.Value()
      ensures ret == Ok && rng.Some? ==>
        K.Value() == BlindedSecret(GY.Value(), X.Value(), Vi.Value(), Vf.Value(), P.Value())
      ensures ret == Ok && rng.Some? ==> (K.Value() == Pow(GY.Value(), X.Value()) % P.Value() <==> Good())
      ensures ret != BadInput && rng.Some? ==>
        Updated(old(pX.Value()), old(Vi.Value()), old(Vf.Value()), rng.value, ret == Ok)
    {
      var inRange := CheckRange(GY, P);
      if !inRange { return BadInput; }
      if rng.Some? {
        ret := UpdateBlinding(rng.value);
        if ret != Ok { return; }
        Blinded(K, GY, X, P, RP, Vi, Vf);
        BlindedIsTrue(GY.Value(), X.Value(), Vi.Value(), Vf.Value(), P.Value());
      } else {
        OddPrime(P.Value());
        var b := NewCopy(GY);
        ret := ExpMod.ExpMod(K, b, X, P, RP);
        DivModFacts(Pow(GY.Value(), X.Value()), P.Value());
      }
      return Ok;
    }

    /** What an update makes of the values px, vi and vf. */
    ghost predicate Updated(px: int, vi: int, vf: int, rng: seq<seq<Limb>>, ok: bool)
      requires P.Value() > 0 && pX.Value() >= 0 && px >= 0
      reads P, X, pX, Vi, Vf
    {
      && pX.Value() == X.Value()
      && (px != X.Value() ==> ok && Vi.Value() == 1 && Vf.Value() == 1 && Good())
      && (px == X.Value() && vi != 1 ==>
        ok && Vi.Value() == (vi * vi) % P.Value() && Vf.Value() == (vf * vf) % P.Value())
      && (px == X.Value() && vi == 1 ==>
        (ok <==> HasDraw(rng, P.Value())) && Vi.Value() == Drawn(rng, P.Value(), 1) &&
        if ok then Good() else Vf.Value() == vf)
      && (Unblinds(vi, vf, px, P.Value()) && ok ==> Good())
    }

    ghost predicate Untouched(px: int, vi: int, vf: int)
      reads pX, Vi, Vf
    {
      pX.Value() == px && Vi.Value() == vi && Vf.Value() == vf
    }

    /** An X and a peer value are installed and the secret computed. */
    method Serve(call: Call) returns (ret: Status)
      requires Valid() && call.WellFormed()
      modifies X, GY, K, Vi, Vf, pX, RP
      ensures Valid()
      ensures ret == BadInput <==> !(2 <= Val(call.y) <= P.Value() - 2)
      ensures ret == Ok || ret == BadInput || (ret == NotAcceptable && call.rng.Some?)
      ensures ret == Ok ==> K.Valid() && 0 <= K.Value() < P.Value()
      ensures ret == Ok && call.rng.None? ==> K.Value() == call.Secret(P.Value())
      ensures ret == Ok && call.rng.Some? ==>
        K.Value() == BlindedSecret(Val(call.y), Val(call.x), Vi.Value(), Vf.Value(), P.Value())
      ensures ret == Ok && call.rng.Some? ==> (K.Value() == call.Secret(P.Value()) <==> Good())
      ensures ret == BadInput || call.rng.None? ==> Untouched(old(pX.Value()), old(Vi.Value()), old(Vf.Value()))
      ensures ret != BadInput && call.rng.Some? ==> X.Value() == Val(call.x)
      ensures ret != BadInput && call.rng.Some? ==>
        Updated(old(pX.Value()), old(Vi.Value()), old(Vf.Value()), call.rng.value, ret == Ok)
    {
      X.s, X.p := 1, call.x;
      GY.s, GY.p := 1, call.y;
      ret := CalcSecret(call.rng);
    }

    /** The state of the blinding values in a run: a pair as soon as some blinded call had X > 0. */
    ghost predicate InStep(calls: seq<Call>, n: nat)
      requires P.Value() > 0 && pX.Value() >= 0 && n <= |calls|
      reads P, pX, Vi, Vf
    {
      if SeenPositive(calls, n) then Good() else Unset()
    }

    /** A call is refused for its peer value, or a draw of a blinded one fails. */
    ghost predicate FailsWith(call: Call, ret: Status)
      requires P.Value() > 0
      reads P
    {
      if 2 <= Val(call.y) <= P.Value() - 2 then ret == NotAcceptable && call.rng.Some? else ret == BadInput
    }

    /** One call of a run: the secret is the true one, or 0 where blinding was never set up. */
    method RunCall(calls: seq<Call>, n: nat) returns (ret: Status)
      requires Valid() && n < |calls| && calls[n].WellFormed() && InStep(calls, n)
      modifies X, GY, K, Vi, Vf, pX, RP
      ensures Valid()
      ensures ret == Ok ==> InStep(calls, n + 1) && K.Valid()
      ensures ret != Ok ==> FailsWith(calls[n], ret)
      ensures ret == Ok ==> K.Value() == if Transparent(calls, n) then calls[n].Secret(P.Value()) else 0
    {
      ret := Serve(calls[n]);
      if ret != Ok { return; }
      SeenNext(calls, n);
      if calls[n].rng.Some? && !SeenPositive(calls, n) && Val(calls[n].x) == 0 {
        ModSmall(0, P.Value());
        UnsetPairFails(Val(calls[n].y), P.Value());
      }
    }

    /**
     A run from a fresh context; each call has its own X and peer value, and the run ends with
     the first failure. Secret i is the true one if and only if call i is not blinded, or its X
     is positive, or some blinded call before it had a positive X.
     */
    method Session(calls: seq<Call>) returns (secrets: seq<seq<Limb>>, last: Status)
      requires Valid() && Unset()
      requires forall i :: 0 <= i < |calls| ==> calls[i].WellFormed()
      modifies X, GY, K, Vi, Vf, pX, RP
      ensures |secrets| <= |calls| && (|secrets| < |calls| <==> last != Ok)
      ensures last != Ok ==> FailsWith(calls[|secrets|], last)
      ensures forall i :: 0 <= i < |secrets| ==>
        (Val(secrets[i]) == calls[i].Secret(P.Value()) <==> Transparent(calls, i))
    {
      secrets, last := [], Ok;
      while |secrets| < |calls|
        invariant |secrets| <= |calls| && last == Ok && Valid() && InStep(calls, |secrets|)
        invariant forall i :: 0 <= i < |secrets| ==>
          (Val(secrets[i]) == calls[i].Secret(P.Value()) <==> Transparent(calls, i))
      {
        var n := |secrets|;
        last := RunCall(calls, n);
        if last != Ok { return; }
        NotZero(calls, n, P.Value());
        secrets := secrets + [K.p];
      }
    }

    /** The blinding values are what a record of the calls says about them. */
    ghost predicate Recorded(t: Trust)
      requires P.Value() > 0 && pX.Value() >= 0
      reads P, pX, Vi, Vf
    {
      match t
      case Fresh => Unset()
      case Sound(x) => Good() && pX.Value() == x
      case Spoiled(x) => pX.Value() == x
    }

    method RecordCall(call: Call, ghost t: Trust) returns (out: Outcome)
      requires Valid() && call.WellFormed() && Recorded(t)
      modifies X, GY, K, Vi, Vf, pX, RP
      ensures Valid() && Recorded(NextTrust(t, call, out))
      ensures CanHappen(t, call, out) && Explained(NextTrust(t, call, out), call, out, P.Value())
    {
      var ret := Serve(call);
      if ret == Ok {
        out := Secret(K.p);
        ModSmall(0, P.Value());
        if call.rng.Some? && Val(call.x) == 0 { UnsetPairFails(Val(call.y), P.Value()); }
      } else if ret == BadInput {
        out := Refused;
      } else {
        out := NoDraw;
      }
    }

    /**
     A run from a fresh context that goes on after failures. A blinded secret is the true one
     unless a draw has failed since its X was last installed, or no positive X ever was: then it
     is 0.
     */
    method LongRun(calls: seq<Call>) returns (outs: seq<Outcome>)
      requires Valid() && Unset() && forall i :: 0 <= i < |calls| ==> calls[i].WellFormed()
      modifies X, GY, K, Vi, Vf, pX, RP
      ensures |outs| == |calls| && Possible(calls, outs) && AllExplained(calls, outs, P.Value())
    {
      outs := [];
      while |outs| < |calls|
        invariant |outs| <= |calls| && Valid() && Recorded(TrustAfter(calls, outs, |outs|))
        invariant Possible(calls, outs) && AllExplained(calls, outs, P.Value())
      {
        var n := |outs|;
        var out := RecordCall(calls[n], TrustAfter(calls, outs, n));
        OneMore(calls, outs, out, P.Value());
        outs := outs + [out];
      }
    }

    /**
     A draw fails and the call is made again: with v left over as Vi the secret carries the
     factor v^(2X), unless v is 1. Any other X starts anew (see UpdateBlinding).
     */
    method RetryAfterFailure(rng: seq<seq<Limb>>, again: seq<seq<Limb>>)
      returns (first: Status, second: Status, ghost v: int)
      requires Valid() && Good() && X.Value() == pX.Value() && Vi.Value() == 1 && 2 <= GY.Value() <= P.Value() - 2
      requires (forall i :: 0 <= i < |rng| ==> rng[i] != []) && forall i :: 0 <= i < |again| ==> again[i] != []
      modifies K, Vi, Vf, pX, RP
      ensures first != Ok && v != 1 ==>
        second == Ok && K.Value() == BlindedSecret(GY.Value(), X.Value(), (v * v) % P.Value(), 1, P.Value())
      ensures first != Ok && v != 1 ==>
        (K.Value() == Pow(GY.Value(), X.Value()) % P.Value() <==> Cong(Pow(v * v, X.Value()), 1, P.Value()))
    {
      UnitPair(Vf.Value(), X.Value(), P.Value());
      first := CalcSecret(Some(rng));
      v := Vi.Value();
      second := CalcSecret(Some(again));
      ModSmall(1, P.Value());
      if Divides(P.Value(), GY.Value()) { DividesLe(P.Value(), GY.Value()); }
      StaleSecret(GY.Value(), X.Value(), v, P.Value());
    }
  }

  /** What became of a call: its secret, a refused peer value, or a failed draw. */
  datatype Outcome = Secret(k: seq<Limb>) | Refused | NoDraw

  /** What a caller can know of the blinding values from its calls and their outcomes. */
  datatype Trust = Fresh | Sound(x: nat) | Spoiled(x: nat)

  /** The call has come to the blinding values. */
  ghost predicate Blinds(call: Call, out: Outcome) {
    call.rng.Some? && !out.Refused?
  }

  ghost function NextTrust(t: Trust, call: Call, out: Outcome): Trust {
    if !Blinds(call, out) then t
    else
      var x := Val(call.x);
      match t
      case Fresh => if x == 0 then Fresh else Sound(x)
      case Sound(x0) => if x == x0 && out.NoDraw? then Spoiled(x) else Sound(x)
      case Spoiled(x0) => if x == x0 then Spoiled(x) else Sound(x)
  }

  ghost function TrustAfter(calls: seq<Call>, outs: seq<Outcome>, n: nat): Trust
    requires n <= |calls| && n <= |outs|
  {
    if n == 0 then Fresh else NextTrust(TrustAfter(calls, outs, n - 1), calls[n - 1], outs[n - 1])
  }

  /** A draw can fail only for an X that is installed already. */
  ghost predicate CanHappen(t: Trust, call: Call, out: Outcome) {
    out.NoDraw? ==> call.rng.Some? && !t.Fresh? && t.x == Val(call.x)
  }

  ghost predicate Possible(calls: seq<Call>, outs: seq<Outcome>)
    requires |outs| <= |calls|
  {
    forall i :: 0 <= i < |outs| ==> CanHappen(TrustAfter(calls, outs, i), calls[i], outs[i])
  }

  /** What a secret is worth. */
  ghost predicate Explained(t: Trust, call: Call, out: Outcome, p: int)
    requires p > 0
  {
    out.Refused? == !(2 <= Val(call.y) <= p - 2) &&
    (out.Secret? ==>
      (call.rng.None? || t.Sound? ==> Val(out.k) == call.Secret(p)) &&
      (call.rng.Some? && t.Fresh? ==> Val(out.k) == 0 && call.Secret(p) == 1 % p))
  }

  lemma {:induction false} TrustKept(calls: seq<Call>, outs: seq<Outcome>, out: Outcome, n: nat)
    requires n <= |outs| < |calls|
    ensures TrustAfter(calls, outs + [out], n) == TrustAfter(calls, outs, n)
  {
    if n > 0 { TrustKept(calls, outs, out, n - 1); }
  }

  lemma {:induction false} TrustPrefix(calls: seq<Call>, outs: seq<Outcome>, out: Outcome)
    requires |outs| < |calls|
    ensures forall n :: 0 <= n <= |outs| ==> TrustAfter(calls, outs + [out], n) == TrustAfter(calls, outs, n)
  {
    forall n | 0 <= n <= |outs|
      ensures TrustAfter(calls, outs + [out], n) == TrustAfter(calls, outs, n)
    {
      TrustKept(calls, outs, out, n);
    }
  }

  ghost predicate AllExplained(calls: seq<Call>, outs: seq<Outcome>, p: int)
    requires |outs| <= |calls| && p > 0
  {
    forall i :: 0 <= i < |outs| ==> Explained(TrustAfter(calls, outs, i + 1), calls[i], outs[i], p)
  }

  lemma {:induction false} OneMore(calls: seq<Call>, outs: seq<Outcome>, out: Outcome, p: int)
    requires |outs| < |calls| && p > 0 && Possible(calls, outs) && AllExplained(calls, outs, p)
    requires var t := TrustAfter(calls, outs, |outs|);
      CanHappen(t, calls[|outs|], out) && Explained(NextTrust(t, calls[|outs|], out), calls[|outs|], out, p)
    ensures Possible(calls, outs + [out]) && AllExplained(calls, outs + [out], p)
    ensures TrustAfter(calls, outs + [out], |outs| + 1) ==
      NextTrust(TrustAfter(calls, outs, |outs|), calls[|outs|], out)
  {
    TrustPrefix(calls, outs, out);
  }

  lemma TrustNames(t: Trust, call: Call, out: Outcome)
    requires Blinds(call, out) && !NextTrust(t, call, out).Fresh?
    ensures NextTrust(t, call, out).x == Val(call.x)
  {
  }

  /** The draw of call j failed, and every blinded call from there to n had the same X. */
  ghost predicate FailedSince(calls: seq<Call>, outs: seq<Outcome>, j: nat, n: nat, x: nat)
    requires j < n <= |outs| <= |calls|
  {
    && outs[j].NoDraw? && Val(calls[j].x) == x
    && forall k :: j < k < n && Blinds(calls[k], outs[k]) ==> Val(calls[k].x) == x
  }

  ghost predicate DrawFailed(calls: seq<Call>, outs: seq<Outcome>, n: nat, x: nat)
    requires n <= |outs| <= |calls|
  {
    exists j :: 0 <= j < n && FailedSince(calls, outs, j, n, x)
  }

  /** Some blinded call that was not refused had a positive X. */
  ghost predicate Installed(calls: seq<Call>, outs: seq<Outcome>, n: nat)
    requires n <= |outs| <= |calls|
  {
    exists j :: 0 <= j < n && Blinds(calls[j], outs[j]) && Val(calls[j].x) > 0
  }

  lemma {:induction false} DrawFailedStep(calls: seq<Call>, outs: seq<Outcome>, n: nat, x: nat)
    requires 0 < n <= |outs| <= |calls|
    ensures var c, o := calls[n - 1], outs[n - 1];
      DrawFailed(calls, outs, n, x) <==>
        (o.NoDraw? && Val(c.x) == x) || (DrawFailed(calls, outs, n - 1, x) && (Blinds(c, o) ==> Val(c.x) == x))
  {
    if DrawFailed(calls, outs, n, x) {
      var j :| 0 <= j < n && FailedSince(calls, outs, j, n, x);
      if j < n - 1 { assert FailedSince(calls, outs, j, n - 1, x); }
    }
    if outs[n - 1].NoDraw? && Val(calls[n - 1].x) == x {
      assert FailedSince(calls, outs, n - 1, n, x);
    } else if DrawFailed(calls, outs, n - 1, x) && (Blinds(calls[n - 1], outs[n - 1]) ==> Val(calls[n - 1].x) == x) {
      var j :| 0 <= j < n - 1 && FailedSince(calls, outs, j, n - 1, x);
      assert FailedSince(calls, outs, j, n, x);
    }
  }

  /** Spoiled means exactly: a draw for this X has failed, and no other X has been installed since. */
  lemma {:induction false} SpoiledExactly(calls: seq<Call>, outs: seq<Outcome>, n: nat, x: nat)
    requires n <= |outs| <= |calls| && Possible(calls, outs)
    ensures TrustAfter(calls, outs, n) == Spoiled(x) <==> DrawFailed(calls, outs, n, x)
  {
    if n > 0 {
      assert CanHappen(TrustAfter(calls, outs, n - 1), calls[n - 1], outs[n - 1]);
      SpoiledExactly(calls, outs, n - 1, x);
      DrawFailedStep(calls, outs, n, x);
    }
  }

  /** Fresh means exactly: no blinded call has had a positive X. */
  lemma {:induction false} FreshExactly(calls: seq<Call>, outs: seq<Outcome>, n: nat)
    requires n <= |outs| <= |calls|
    ensures TrustAfter(calls, outs, n).Fresh? <==> !Installed(calls, outs, n)
  {
    if n > 0 {
      FreshExactly(calls, outs, n - 1);
      assert Installed(calls, outs, n) <==>
        Installed(calls, outs, n - 1) || (Blinds(calls[n - 1], outs[n - 1]) && Val(calls[n - 1].x) > 0);
    }
  }

  /**
   The secrets of a run in a caller's terms: with a positive X installed some time and no draw
   failed since the present X was, a blinded secret is the true one.
   */
  lemma {:induction false} RightUnlessDrawFailed(calls: seq<Call>, outs: seq<Outcome>, i: nat, p: int)
    requires i < |outs| <= |calls| && p > 0 && Possible(calls, outs) && outs[i].Secret?
    requires Explained(TrustAfter(calls, outs, i + 1), calls[i], outs[i], p)
    requires calls[i].rng.Some? ==> Installed(calls, outs, i + 1) && !DrawFailed(calls, outs, i + 1, Val(calls[i].x))
    ensures Val(outs[i].k) == calls[i].Secret(p)
  {
    if calls[i].rng.Some? {
      FreshExactly(calls, outs, i + 1);
      SpoiledExactly(calls, outs, i + 1, Val(calls[i].x));
      TrustNames(TrustAfter(calls, outs, i), calls[i], outs[i]);
    }
  }

  /** Some blinded call among the first n had a positive X. */
  ghost predicate SeenPositive(calls: seq<Call>, n: nat)
    requires n <= |calls|
  {
    exists j :: 0 <= j < n && calls[j].rng.Some? && Val(calls[j].x) > 0
  }

  lemma SeenNext(calls: seq<Call>, n: nat)
    requires n < |calls|
    ensures SeenPositive(calls, n + 1) <==> SeenPositive(calls, n) || (calls[n].rng.Some? && Val(calls[n].x) > 0)
  {
  }

  ghost predicate Transparent(calls: seq<Call>, i: nat)
    requires i < |calls|
  {
    calls[i].rng.None? || Val(calls[i].x) > 0 || SeenPositive(calls, i)
  }

  /** Where blinding was never set up the true secret is 1. */
  lemma NotZero(calls: seq<Call>, i: nat, p: int)
    requires i < |calls| && p > 1
    ensures !Transparent(calls, i) ==> calls[i].Secret(p) == 1
  {
    ModSmall(1, p);
  }

  /** One use of the context: private value, peer value, generator answers if blinding is wanted. */
  datatype Call = Call(x: seq<Limb>, y: seq<Limb>, rng: Option<seq<seq<Limb>>>) {
    ghost predicate WellFormed() {
      rng.Some? ==> forall i :: 0 <= i < |rng.value| ==> rng.value[i] != []
    }

    /** What it asks for. */
    ghost function Secret(p: int): int
      requires p > 0
    {
      Pow(Val(y), Val(x)) % p
    }
  }

  /** dhm_check_range */
  method CheckRange(Y: Mpi, P: Mpi) returns (ok: bool)
    requires Y.Valid() && P.Valid()
    ensures ok <==> 2 <= Y.Value() <= P.Value() - 2
  {
    var L := NewValue(2);
    var U := new Mpi();
    SubInt(U, P, 2);
    var c := CmpMpi(Y, L);
    var d := CmpMpi(Y, U);
    ok := c >= 0 && d <= 0;
  }

  /** The peer value is blinded, raised to X and unblinded into K. */
  method Blinded(K: Mpi, GY: Mpi, X: Mpi, P: Mpi, RP: Mpi, Vi: Mpi, Vf: Mpi)
    requires K !in {GY, X, P, RP, Vi, Vf} && RP !in {GY, X, P, Vi, Vf} && P !in {GY, X, Vi, Vf}
    requires GY.Valid() && X.Valid() && P.Valid() && Vi.Valid() && Vf.Valid()
    requires P.p != [] && X.Value() >= 0 && GY.Value() >= 0 && Vi.Value() >= 0
    requires P.Value() > 2 && Prime(P.Value()) && (RP.p != [] ==> IsRR(RP, P))
    modifies K, RP
    ensures K.Valid() && IsRR(RP, P) && 0 <= K.Value() < P.Value()
    ensures K.Value() == BlindedSecret(GY.Value(), X.Value(), Vi.Value(), Vf.Value(), P.Value())
  {
    ghost var p := P.Value();
    var b := BlindedBase(GY, Vi, P);
    OddPrime(p);
    ghost var bs, bm := b.s, b.Mag();
    var ret := ExpMod.ExpMod(K, b, X, P, RP);
    FinalResidue(bs, bm, K.Value(), X.Value(), Vf.Value(), p);
    MulMpi(K, K, Vf);
    ret := ModMpi(K, K, P);
  }

  /** With a peer value in range the blinded secret is the true one exactly for a pair. */
  lemma BlindedIsTrue(y: int, x: nat, vi: int, vf: int, p: int)
    requires Prime(p) && 2 <= y <= p - 2
    ensures BlindedSecret(y, x, vi, vf, p) == Pow(y, x) % p <==> Unblinds(vi, vf, x, p)
  {
    if Divides(p, y) { DividesLe(p, y); }
    TransparentExactly(y, x, vi, vf, p);
  }

  lemma FinalResidue(s: int, m: nat, k: int, x: nat, vf: int, p: int)
    requires p > 0 && (s == 1 || s == -1) && k == PowerMod(s, m, x, p)
    ensures (k * vf) % p == (Pow(s * m, x) % p * vf) % p
  {
    PowerModMeaning(s, m, x, p);
    var q := Pow(s * m, x);
    CongMod(q, p);
    CongMul(k, q % p, vf, vf, p);
  }

  method BlindedBase(GY: Mpi, Vi: Mpi, P: Mpi) returns (b: Mpi)
    requires GY.Valid() && P.Valid() && Vi.Valid() && P.Value() > 0
    ensures fresh(b) && b.Valid() && b.p != [] && b.Value() == (GY.Value() * Vi.Value()) % P.Value()
    ensures b.Value() == b.s * b.Mag()
  {
    b := new Mpi();
    MulMpi(b, GY, Vi);
    var ret := ModMpi(b, b, P);
    DivModFacts(GY.Value() * Vi.Value(), P.Value());
  }

  /** V is squared modulo P. */
  method SquareMod(V: Mpi, P: Mpi)
    requires V != P && V.Valid() && P.Valid() && P.Value() > 0
    modifies V
    ensures V.Valid() && V.Value() == (old(V.Value()) * old(V.Value())) % P.Value() && 0 <= V.Value() < P.Value()
  {
    MulMpi(V, V, V);
    var ret := ModMpi(V, V, P);
    DivModFacts(old(V.Value()) * old(V.Value()), P.Value());
  }

  /** A random Vi above 1 and below P, and the inverse of its X-th power; gives up after eleven answers below two. */
  method FreshPair(Vi: Mpi, Vf: Mpi, X: Mpi, P: Mpi, RP: Mpi, rng: seq<seq<Limb>>) returns (ret: Status)
    requires Vi != Vf && Vi !in {X, P, RP} && Vf !in {X, P, RP} && X != P && RP !in {X, P}
    requires Vi.Valid() && Vf.Valid() && X.Valid() && P.Valid() && P.p != [] && X.Value() >= 0
    requires P.Value() > 2 && Prime(P.Value()) && (RP.p != [] ==> IsRR(RP, P)) && 0 <= Vi.Value() < P.Value() &&
      0 <= Vf.Value() < P.Value()
    requires forall i :: 0 <= i < |rng| ==> rng[i] != []
    modifies Vi, Vf, RP
    ensures Vi.Valid() && Vf.Valid() && (RP.p != [] ==> IsRR(RP, P)) && 0 <= Vi.Value() < P.Value() &&
      0 <= Vf.Value() < P.Value()
    ensures ret == Ok || ret == NotAcceptable
    ensures ret == Ok <==> HasDraw(rng, P.Value())
    ensures Vi.Value() == Drawn(rng, P.Value(), old(Vi.Value()))
    ensures if ret == Ok then Unblinds(Vi.Value(), Vf.Value(), X.Value(), P.Value()) else Vf.Value() == old(Vf.Value())
  {
    var found := DrawBelow(Vi, P, rng);
    if !found { return NotAcceptable; }
    ghost var p, vi := P.Value(), Vi.Value();
    if Divides(p, vi) { DividesLe(p, vi); }
    PrimeCoprime(p, vi);
    ret := InvMod(Vf, Vi, P);
    ghost var inv := Vf.Value();
    OddPrime(p);
    ret := ExpMod.ExpMod(Vf, Vf, X, P, RP);
    InversePair(vi, inv, Vf.Value(), X.Value(), p);
    DivModFacts(Pow(inv, X.Value()), p);
  }

  // ---------- Drawing a blinding value ----------

  /** The number an answer of the generator stands for, halved until it is below p. */
  ghost function Halved(v: nat, p: int): nat
    requires p > 0
  {
    if v < p then v else Halved(v / 2, p)
  }

  /** Answer n is the first that exceeds 1, and one of the first eleven. */
  ghost predicate DrawsAt(rng: seq<seq<Limb>>, n: nat, p: int)
    requires p > 0
  {
    n < |rng| && n <= 10 && Halved(Val(rng[n]), p) > 1 && forall i :: 0 <= i < n ==> Halved(Val(rng[i]), p) <= 1
  }

  ghost predicate HasDraw(rng: seq<seq<Limb>>, p: int)
    requires p > 0
  {
    exists n: nat :: DrawsAt(rng, n, p)
  }

  /** What is drawn, or left where drawing fails: the twelfth answer, or the last one if there are fewer. */
  ghost function Drawn(rng: seq<seq<Limb>>, p: int, before: int): int
    requires p > 0
  {
    if HasDraw(rng, p) then
      var n: nat :| DrawsAt(rng, n, p);
      Halved(Val(rng[n]), p)
    else if rng == [] then before
    else Halved(Val(rng[if |rng| < 12 then |rng| - 1 else 11]), p)
  }

  lemma DrawIsFirst(rng: seq<seq<Limb>>, n: nat, p: int, before: int)
    requires p > 0 && DrawsAt(rng, n, p)
    ensures HasDraw(rng, p) && Drawn(rng, p, before) == Halved(Val(rng[n]), p)
  {
    forall m: nat | DrawsAt(rng, m, p)
      ensures m == n
    {
    }
  }

  lemma NoDrawWithin(rng: seq<seq<Limb>>, m: nat, p: int)
    requires p > 0 && m <= |rng| && (m == |rng| || m >= 11)
    requires forall i :: 0 <= i < m && i <= 10 ==> Halved(Val(rng[i]), p) <= 1
    ensures !HasDraw(rng, p)
  {
  }

  /** Random numbers, halved until below P, until one exceeds 1; the stream's end counts as giving up. */
  method DrawBelow(V: Mpi, P: Mpi, rng: seq<seq<Limb>>) returns (found: bool)
    requires V != P && P.Valid() && P.p != [] && P.Value() > 0 && V.Valid() && 0 <= V.Value() < P.Value()
    requires forall i :: 0 <= i < |rng| ==> rng[i] != []
    modifies V
    ensures V.Valid() && 0 <= V.Value() < P.Value()
    ensures found <==> HasDraw(rng, P.Value())
    ensures V.Value() == Drawn(rng, P.Value(), old(V.Value()))
    ensures found ==> V.p != [] && 1 < V.Value() < P.Value()
  {
    var count, pos := 0, 0;
    while true
      invariant 0 <= pos <= |rng| && pos <= 11 && count == pos && V.Valid() && 0 <= V.Value() < P.Value()
      invariant V.Value() == if pos == 0 then old(V.Value()) else Halved(Val(rng[pos - 1]), P.Value())
      invariant forall i :: 0 <= i < pos ==> Halved(Val(rng[i]), P.Value()) <= 1
      decreases |rng| - pos
    {
      if pos == |rng| {
        NoDrawWithin(rng, pos, P.Value());
        return false;
      }
      TakeHalved(V, P, rng[pos]);
      pos := pos + 1;
      count := count + 1;
      if count - 1 > 10 {
        NoDrawWithin(rng, 11, P.Value());
        return false;
      }
      var c := CmpInt(V, 1);
      if c > 0 {
        DrawIsFirst(rng, pos - 1, P.Value(), old(V.Value()));
        return true;
      }
    }
  }

  method TakeHalved(V: Mpi, P: Mpi, answer: seq<Limb>)
    requires V != P && P.Valid() && P.p != [] && P.Value() > 0 && answer != []
    modifies V
    ensures V.Valid() && V.p != [] && V.Value() == Halved(Val(answer), P.Value()) && 0 <= V.Value() < P.Value()
  {
    FillRandom(V, answer);
    var c := CmpMpi(V, P);
    while c >= 0
      invariant V.Valid() && V.s == 1 && V.p != [] && c == Sgn(V.Value() - P.Value())
      invariant Halved(V.Mag(), P.Value()) == Halved(Val(answer), P.Value())
      decreases V.Mag()
    {
      ghost var v := V.Mag();
      assert v / Pow(2, 1) == v / 2;
      ShiftR(V, 1);
      c := CmpMpi(V, P);
    }
  }
}
