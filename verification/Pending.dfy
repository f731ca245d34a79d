/**
 Pending events of libev: one LIFO queue per priority, changed by callbacks while it is
 drained (ev_feed_event, clear_pending, ev_clear_pending, ev_invoke_pending).
 */
module Pending {
  import opened Options

  /** NUMPRI: priorities EV_MINPRI..EV_MAXPRI, counted from 0 by ABSPRI. */
  const NUMPRI: nat := 5

  /** The fields of a watcher that the queues and the timer heap use; at and repeat are those of ev_timer. */
  class Watcher {
    const pri: nat
    var pending: nat      // 1 + position in its queue, 0 when not pending
    var active: nat       // index in the heap array, 0 when not active
    var at: real
    var repeat: real

    constructor (pri: nat, at: real, repeat: real)
      requires pri < NUMPRI
      ensures this.pri == pri && pending == 0 && active == 0 && this.at == at && this.repeat == repeat
    {
      this.pri, pending, active, this.at, this.repeat := pri, 0, 0, at, repeat;
    }
  }

  /** ANPENDING; the dummy pending_w of a cleared slot is None. */
  datatype Slot = Slot(w: Option<Watcher>, events: bv32)

  /** What has happened so far, as a caller could have noted it down. */
  datatype Act = Fed(w: Watcher, events: bv32) | Cleared(w: Watcher) | Called(w: Watcher, events: bv32)

  ghost predicate Waiting(h: seq<Act>, w: Watcher)
  {
    h != [] && (if h[|h| - 1].w == w then h[|h| - 1].Fed? else Waiting(h[..|h| - 1], w))
  }

  /** The OR of everything fed to w since it was last called or cleared. */
  ghost function Mask(h: seq<Act>, w: Watcher): bv32 {
    if h == [] then 0
    else
      var last, rest := h[|h| - 1], h[..|h| - 1];
      if last.w != w then Mask(rest, w)
      else if last.Fed? then Mask(rest, w) | last.events
      else 0
  }

  /** The position of the feed with which w started to wait; later feeds only add events. */
  ghost function Since(h: seq<Act>, w: Watcher): nat {
    if h == [] then 0
    else
      var last, rest := h[|h| - 1], h[..|h| - 1];
      if last.w != w || (last.Fed? && Waiting(rest, w)) then Since(rest, w) else |rest|
  }

  /**
   Every call delivered exactly what was owed, to a waiting watcher, with nothing more urgent
   waiting and nothing as urgent that started to wait later.
   */
  ghost predicate WellServed(h: seq<Act>) {
    forall i :: 0 <= i < |h| && h[i].Called? ==> CallIsDue(h[..i], h[i].w, h[i].events)
  }

  ghost predicate CallIsDue(h: seq<Act>, w: Watcher, events: bv32) {
    IsNext(h, w) && events == Mask(h, w)
  }

  /** Nobody who waits is more urgent, or as urgent and waiting since later. */
  ghost predicate IsNext(h: seq<Act>, w: Watcher) {
    Waiting(h, w) && forall j :: 0 <= j < |h| && Waiting(h, h[j].w) ==> GoesFirst(h, w, h[j].w)
  }

  ghost predicate GoesFirst(h: seq<Act>, w: Watcher, v: Watcher) {
    v.pri < w.pri || (v.pri == w.pri && Since(h, v) <= Since(h, w))
  }

  lemma AppendAct(h: seq<Act>, a: Act, w: Watcher)
    ensures Waiting(h + [a], w) == (if a.w == w then a.Fed? else Waiting(h, w))
    ensures Mask(h + [a], w) == (if a.w != w then Mask(h, w) else if a.Fed? then Mask(h, w) | a.events else 0)
    ensures Since(h + [a], w) == (if a.w != w || (a.Fed? && Waiting(h, w)) then Since(h, w) else |h|)
  {
    assert (h + [a])[..|h|] == h;
  }

  lemma {:induction false} NeverFed(h: seq<Act>, w: Watcher)
    requires forall j :: 0 <= j < |h| ==> h[j].w != w
    ensures !Waiting(h, w) && Mask(h, w) == 0
  {
    if h != [] { NeverFed(h[..|h| - 1], w); }
  }

  lemma {:induction false} SinceIsPast(h: seq<Act>, w: Watcher)
    ensures h != [] ==> Since(h, w) < |h|
  {
    if h != [] { SinceIsPast(h[..|h| - 1], w); }
  }

  lemma AppendServed(h: seq<Act>, a: Act)
    requires WellServed(h) && (a.Called? ==> CallIsDue(h, a.w, a.events))
    ensures WellServed(h + [a])
  {
    var g := h + [a];
    forall i | 0 <= i < |g| && g[i].Called?
      ensures CallIsDue(g[..i], g[i].w, g[i].events)
    {
      if i < |h| { assert g[..i] == h[..i]; } else { assert g[..i] == h; }
    }
  }

  /** Without a call or a clear, w goes on waiting since the same feed. */
  lemma {:induction false} StaysWaiting(h: seq<Act>, n: nat, t: nat, w: Watcher)
    requires n <= t <= |h| && Waiting(h[..n], w) && forall s :: n <= s < t && h[s].w == w ==> h[s].Fed?
    ensures Waiting(h[..t], w) && Since(h[..t], w) == Since(h[..n], w)
  {
    if n < t {
      StaysWaiting(h, n, t - 1, w);
      AppendAct(h[..t - 1], h[t - 1], w);
      assert h[..t] == h[..t - 1] + [h[t - 1]];
    }
  }

  /** Whoever waited and no longer does has been called or cleared in between. */
  lemma WaitEnds(h: seq<Act>, n: nat, w: Watcher) returns (s: nat)
    requires n <= |h| && Waiting(h[..n], w) && !Waiting(h, w)
    ensures n <= s < |h| && h[s].w == w && !h[s].Fed?
  {
    assert h[..|h|] == h;
    if forall s :: n <= s < |h| && h[s].w == w ==> h[s].Fed? {
      StaysWaiting(h, n, |h|, w);
      assert false;
    }
    s :| n <= s < |h| && h[s].w == w && !h[s].Fed?;
  }

  lemma {:induction false} WaitingWasFed(h: seq<Act>, w: Watcher) returns (k: nat)
    requires Waiting(h, w)
    ensures k < |h| && h[k].w == w
  {
    if h[|h| - 1].w == w { k := |h| - 1; } else { k := WaitingWasFed(h[..|h| - 1], w); }
  }

  /**
   LIFO within a priority, whatever the callbacks do: if u started to wait after v, v is not
   called before u has been called or cleared.
   */
  lemma LaterFirst(h: seq<Act>, n: nat, t: nat, u: Watcher, v: Watcher) returns (s: nat)
    requires WellServed(h) && n <= t < |h| && u.pri == v.pri
    requires Waiting(h[..n], u) && Waiting(h[..n], v) && Since(h[..n], v) < Since(h[..n], u)
    requires h[t].Called? && h[t].w == v && forall s :: n <= s < t && h[s].w == v ==> h[s].Fed?
    ensures n <= s < t && h[s].w == u && !h[s].Fed?
  {
    assert CallIsDue(h[..t], v, h[t].events);
    StaysWaiting(h, n, t, v);
    if forall s :: n <= s < t && h[s].w == u ==> h[s].Fed? {
      StaysWaiting(h, n, t, u);
      var k := WaitingWasFed(h[..t], u);
      assert false;
    }
    s :| n <= s < t && h[s].w == u && !h[s].Fed?;
  }

  /** What a callback can do to the queues: feed, clear, or dispatch from within. */
  datatype Op = Feed(w: Watcher, events: bv32) | Clear(w: Watcher) | Invoke

  // ---------- Dispatch without queues ----------

  ghost function Waiters(h: seq<Act>): set<Watcher> {
    set j | 0 <= j < |h| && Waiting(h, h[j].w) :: h[j].w
  }

  /** Among the watchers of the first n entries, one that goes first. */
  lemma {:induction false} FindNext(h: seq<Act>, n: nat) returns (w: Watcher)
    requires n <= |h| && exists j :: 0 <= j < n && Waiting(h, h[j].w)
    ensures Waiting(h, w) && forall j :: 0 <= j < n && Waiting(h, h[j].w) ==> GoesFirst(h, w, h[j].w)
  {
    var v := h[n - 1].w;
    if exists j :: 0 <= j < n - 1 && Waiting(h, h[j].w) {
      w := FindNext(h, n - 1);
      if Waiting(h, v) && !GoesFirst(h, w, v) { w := v; }
    } else {
      w := v;
    }
  }

  lemma NextExists(h: seq<Act>)
    requires Waiters(h) != {}
    ensures exists w :: w in Waiters(h) && IsNext(h, w)
  {
    var v :| v in Waiters(h);
    var j :| 0 <= j < |h| && Waiting(h, h[j].w) && h[j].w == v;
    var w := FindNext(h, |h|);
    WaiterListed(h, w);
  }

  lemma WaiterListed(h: seq<Act>, w: Watcher)
    ensures w in Waiters(h) <==> Waiting(h, w)
  {
    if Waiting(h, w) { var k := WaitingWasFed(h, w); }
  }

  lemma {:induction false} SinceIsFeed(h: seq<Act>, w: Watcher)
    requires Waiting(h, w)
    ensures Since(h, w) < |h| && h[Since(h, w)].w == w
  {
    var rest := h[..|h| - 1];
    if h[|h| - 1].w != w || Waiting(rest, w) { SinceIsFeed(rest, w); }
  }

  /** There is only one who is next. */
  lemma NextIsUnique(h: seq<Act>, v: Watcher, w: Watcher)
    requires IsNext(h, v) && IsNext(h, w)
    ensures v == w
  {
    SinceIsFeed(h, v);
    SinceIsFeed(h, w);
  }

  lemma CalledWaitsNoMore(h: seq<Act>, w: Watcher)
    requires w in Waiters(h)
    ensures Waiters(h + [Called(w, Mask(h, w))]) < Waiters(h)
  {
    var g := h + [Called(w, Mask(h, w))];
    forall v | v in Waiters(g)
      ensures v in Waiters(h) && v != w
    {
      AppendAct(h, Called(w, Mask(h, w)), v);
      WaiterListed(h, v);
      WaiterListed(g, v);
    }
    WaiterListed(g, w);
    AppendAct(h, Called(w, Mask(h, w)), w);
  }

  /** What is known after a dispatch: the history and the bodies that are left. */
  datatype Outcome = Outcome(history: seq<Act>, left: seq<seq<Op>>)

  /**
   Dispatch as a caller sees it: as long as anybody waits, the next one is called with what it is
   owed, and its callback runs the next body, if there is one left.
   */
  ghost function Dispatched(h: seq<Act>, bodies: seq<seq<Op>>): (r: Outcome)
    ensures |r.left| <= |bodies|
    decreases |bodies|, 0, |Waiters(h)|
  {
    if Waiters(h) == {} then Outcome(h, bodies)
    else
      NextExists(h);
      var w :| w in Waiters(h) && IsNext(h, w);
      var g := h + [Called(w, Mask(h, w))];
      if bodies == [] then
        FewerWait(h, w);
        Dispatched(g, [])
      else
        var r := Performed(g, bodies[0], bodies[1..]);
        Dispatched(r.history, r.left)
  }

  /** A callback body: its feeds and clears in order, and a dispatch for every Invoke. */
  ghost function Performed(h: seq<Act>, body: seq<Op>, bodies: seq<seq<Op>>): (r: Outcome)
    ensures |r.left| <= |bodies|
    decreases |bodies|, 1, |body|
  {
    if body == [] then Outcome(h, bodies)
    else
      match body[0]
      case Feed(w, events) => Performed(h + [Fed(w, events)], body[1..], bodies)
      case Clear(w) => Performed(h + [Cleared(w)], body[1..], bodies)
      case Invoke =>
        var r := Dispatched(h, bodies);
        Performed(r.history, body[1..], r.left)
  }

  lemma {:induction false} SmallerSet(a: set<Watcher>, b: set<Watcher>)
    requires a < b
    ensures |a| < |b|
  {
    var x :| x in b && x !in a;
    assert a <= b - {x};
    SubsetSize(a, b - {x});
  }

  lemma {:induction false} SubsetSize(a: set<Watcher>, b: set<Watcher>)
    requires a <= b
    ensures |a| <= |b|
  {
    if a != {} {
      var x :| x in a;
      SubsetSize(a - {x}, b - {x});
    }
  }

  lemma DispatchStep(h: seq<Act>, bodies: seq<seq<Op>>, w: Watcher)
    requires IsNext(h, w)
    ensures var g := h + [Called(w, Mask(h, w))];
      if bodies == [] then Dispatched(h, bodies) == Dispatched(g, [])
      else var r := Performed(g, bodies[0], bodies[1..]);
        Dispatched(h, bodies) == Dispatched(r.history, r.left)
  {
    WaiterListed(h, w);
    NextExists(h);
    var v :| v in Waiters(h) && IsNext(h, v);
    forall u | u in Waiters(h) && IsNext(h, u)
      ensures u == w
    {
      NextIsUnique(h, u, w);
    }
  }

  // ---------- What a dispatch amounts to ----------

  /** How often a is in a history, and the number of its calls. */
  ghost function Times(h: seq<Act>, a: Act): nat {
    if h == [] then 0 else Times(h[..|h| - 1], a) + (if h[|h| - 1] == a then 1 else 0)
  }

  ghost function Calls(h: seq<Act>): nat {
    if h == [] then 0 else Calls(h[..|h| - 1]) + (if h[|h| - 1].Called? then 1 else 0)
  }

  /** What an operation does to the history. */
  ghost predicate IsFor(op: Op, a: Act) {
    (a.Fed? && op == Feed(a.w, a.events)) || (a.Cleared? && op == Clear(a.w))
  }

  /** How often a callback body, or the first n bodies, ask for a. */
  ghost function Asks(body: seq<Op>, a: Act): nat {
    if body == [] then 0 else (if IsFor(body[0], a) then 1 else 0) + Asks(body[1..], a)
  }

  ghost function AllAsk(bodies: seq<seq<Op>>, n: nat, a: Act): nat
    requires n <= |bodies|
  {
    if n == 0 then 0 else Asks(bodies[0], a) + AllAsk(bodies[1..], n - 1, a)
  }

  lemma AppendTimes(h: seq<Act>, b: Act, a: Act)
    ensures Times(h + [b], a) == Times(h, a) + (if b == a then 1 else 0)
    ensures Calls(h + [b]) == Calls(h) + (if b.Called? then 1 else 0)
  {
    assert (h + [b])[..|h|] == h;
  }

  ghost function Min(a: nat, b: nat): nat {
    if a <= b then a else b
  }

  /**
   Every call has run a body as long as there were any, in their order; and as often as these
   bodies ask for a feed or clear, and `extra` times more, it has been done.
   */
  ghost predicate Explained(h: seq<Act>, bodies: seq<seq<Op>>, r: Outcome, a: Act, extra: nat) {
    && h <= r.history && Calls(h) <= Calls(r.history) && |r.left| <= |bodies|
    && var n := |bodies| - |r.left|;
      && r.left == bodies[n..] && n == Min(|bodies|, Calls(r.history) - Calls(h))
      && Times(r.history, a) == Times(h, a) + extra + AllAsk(bodies, n, a)
  }

  lemma {:induction false} AllAskSplit(bodies: seq<seq<Op>>, m: nat, n: nat, a: Act)
    requires m <= n <= |bodies|
    ensures AllAsk(bodies, n, a) == AllAsk(bodies, m, a) + AllAsk(bodies[m..], n - m, a)
  {
    if m > 0 {
      AllAskSplit(bodies[1..], m - 1, n - 1, a);
      assert bodies[1..][m - 1..] == bodies[m..];
    } else {
      assert bodies[m..] == bodies;
    }
  }

  lemma ThenExplained(h: seq<Act>, bodies: seq<seq<Op>>, q: Outcome, r: Outcome, a: Act, x: nat, y: nat)
    requires Explained(h, bodies, q, a, x) && Explained(q.history, q.left, r, a, y)
    ensures Explained(h, bodies, r, a, x + y)
  {
    var m, n := |bodies| - |q.left|, |bodies| - |r.left|;
    AllAskSplit(bodies, m, n, a);
    assert bodies[m..][n - m..] == bodies[n..];
  }

  /** A call with its body and whatever that led to. */
  lemma CallExplained(h: seq<Act>, b: Act, bodies: seq<seq<Op>>, r: Outcome, a: Act)
    requires bodies != [] && b.Called? && !a.Called? && Explained(h + [b], bodies[1..], r, a, Asks(bodies[0], a))
    ensures Explained(h, bodies, r, a, 0)
  {
    AppendTimes(h, b, a);
    var n := |bodies| - |r.left|;
    assert bodies[1..][n - 1..] == bodies[n..];
  }

  /** One operation of a body and the rest of it. */
  lemma OpExplained(h: seq<Act>, b: Act, body: seq<Op>, bodies: seq<seq<Op>>, r: Outcome, a: Act)
    requires body != [] && IsFor(body[0], b) && Explained(h + [b], bodies, r, a, Asks(body[1..], a))
    ensures Explained(h, bodies, r, a, Asks(body, a))
  {
    AppendTimes(h, b, a);
  }

  lemma {:induction false} DispatchExplained(h: seq<Act>, bodies: seq<seq<Op>>, a: Act)
    requires !a.Called?
    ensures Explained(h, bodies, Dispatched(h, bodies), a, 0) && Waiters(Dispatched(h, bodies).history) == {}
    decreases |bodies|, 0, |Waiters(h)|
  {
    if Waiters(h) == {} {
      assert bodies[0..] == bodies;
    } else {
      NextExists(h);
      var w :| w in Waiters(h) && IsNext(h, w);
      DispatchStep(h, bodies, w);
      if bodies == [] { LastCallsExplained(h, w, a); } else { NextCallExplained(h, bodies, w, a); }
    }
  }

  lemma {:induction false} LastCallsExplained(h: seq<Act>, w: Watcher, a: Act)
    requires !a.Called? && w in Waiters(h)
    ensures var r := Dispatched(h + [Called(w, Mask(h, w))], []);
      Explained(h, [], r, a, 0) && Waiters(r.history) == {}
    decreases 0, 0, |Waiters(h)|, 0
  {
    var b := Called(w, Mask(h, w));
    FewerWait(h, w);
    DispatchExplained(h + [b], [], a);
    LastExplained(h, b, Dispatched(h + [b], []), a);
  }

  lemma FewerWait(h: seq<Act>, w: Watcher)
    requires w in Waiters(h)
    ensures |Waiters(h + [Called(w, Mask(h, w))])| < |Waiters(h)|
  {
    CalledWaitsNoMore(h, w);
    SmallerSet(Waiters(h + [Called(w, Mask(h, w))]), Waiters(h));
  }

  lemma LastExplained(h: seq<Act>, b: Act, r: Outcome, a: Act)
    requires b.Called? && !a.Called? && Explained(h + [b], [], r, a, 0)
    ensures Explained(h, [], r, a, 0)
  {
    AppendTimes(h, b, a);
    var bodies: seq<seq<Op>> := [];
    NothingLeft(h, bodies, r, a);
  }

  lemma NothingLeft(h: seq<Act>, bodies: seq<seq<Op>>, r: Outcome, a: Act)
    requires bodies == [] == r.left && h <= r.history && Calls(h) <= Calls(r.history)
    requires Times(r.history, a) == Times(h, a)
    ensures Explained(h, bodies, r, a, 0)
  {
    assert bodies[0..] == bodies;
  }

  lemma {:induction false} NextCallExplained(h: seq<Act>, bodies: seq<seq<Op>>, w: Watcher, a: Act)
    requires !a.Called? && bodies != []
    ensures var q := Performed(h + [Called(w, Mask(h, w))], bodies[0], bodies[1..]);
      var r := Dispatched(q.history, q.left);
      Explained(h, bodies, r, a, 0) && Waiters(r.history) == {}
    decreases |bodies|, 0, |Waiters(h)|, 0
  {
    var b := Called(w, Mask(h, w));
    var q := Performed(h + [b], bodies[0], bodies[1..]);
    BodyExplained(h + [b], bodies[0], bodies[1..], a);
    CallExplained(h, b, bodies, q, a);
    RestExplained(h, bodies, q, a);
  }

  lemma {:induction false} RestExplained(h: seq<Act>, bodies: seq<seq<Op>>, q: Outcome, a: Act)
    requires !a.Called? && Explained(h, bodies, q, a, 0) && |q.left| < |bodies|
    ensures var r := Dispatched(q.history, q.left); Explained(h, bodies, r, a, 0) && Waiters(r.history) == {}
    decreases |q.left|, 0, |Waiters(q.history)| + 1
  {
    DispatchExplained(q.history, q.left, a);
    ThenExplained(h, bodies, q, Dispatched(q.history, q.left), a, 0, 0);
  }

  lemma {:induction false} BodyExplained(h: seq<Act>, body: seq<Op>, bodies: seq<seq<Op>>, a: Act)
    requires !a.Called?
    ensures Explained(h, bodies, Performed(h, body, bodies), a, Asks(body, a))
    decreases |bodies|, 1, |body|
  {
    if body == [] {
      assert bodies[0..] == bodies;
    } else {
      match body[0]
      case Feed(w, events) =>
        BodyExplained(h + [Fed(w, events)], body[1..], bodies, a);
        OpExplained(h, Fed(w, events), body, bodies, Performed(h, body, bodies), a);
      case Clear(w) =>
        BodyExplained(h + [Cleared(w)], body[1..], bodies, a);
        OpExplained(h, Cleared(w), body, bodies, Performed(h, body, bodies), a);
      case Invoke =>
        var q := Dispatched(h, bodies);
        DispatchExplained(h, bodies, a);
        BodyExplained(q.history, body[1..], q.left, a);
        ThenExplained(h, bodies, q, Performed(h, body, bodies), a, 0, Asks(body[1..], a));
    }
  }

  lemma {:induction false} TimesGrow(h: seq<Act>, n: nat, a: Act)
    requires n <= |h|
    ensures Times(h, a) >= Times(h[..n], a)
    ensures a in h[n..] ==> Times(h, a) > Times(h[..n], a)
  {
    if n < |h| {
      var rest := h[..|h| - 1];
      TimesGrow(rest, n, a);
      assert rest[..n] == h[..n] && h[n..] == rest[n..] + [h[|h| - 1]];
    } else {
      assert h[..n] == h;
    }
  }

  /**
   Whoever waits when a dispatch begins is called during it, unless a callback that it runs asks
   for clearing it.
   */
  lemma WaiterIsServed(h: seq<Act>, bodies: seq<seq<Op>>, w: Watcher) returns (s: nat)
    requires Waiting(h, w)
    ensures var r := Dispatched(h, bodies);
      && |h| <= s < |r.history| && r.history[s].w == w && |r.left| <= |bodies|
      && (r.history[s].Called? || AllAsk(bodies, |bodies| - |r.left|, Cleared(w)) > 0)
  {
    var r := Dispatched(h, bodies);
    DispatchExplained(h, bodies, Cleared(w));
    assert r.history[..|h|] == h;
    WaiterListed(r.history, w);
    s := WaitEnds(r.history, |h|, w);
    TimesGrow(r.history, |h|, Cleared(w));
    assert r.history[|h|..][s - |h|] == r.history[s];
  }

  /** Without bodies everybody who waits is called. */
  lemma EveryWaiterIsCalled(h: seq<Act>, w: Watcher) returns (s: nat)
    requires Waiting(h, w)
    ensures var r := Dispatched(h, []); |h| <= s < |r.history| && r.history[s].w == w && r.history[s].Called?
  {
    s := WaiterIsServed(h, [], w);
  }

  class Queues {
    var pendings: seq<seq<Slot>>
    var pendingpri: int
    ghost var watchers: set<Watcher>
    ghost var history: seq<Act>

    /** Slots and `pending` fields point at each other. */
    ghost predicate Linked()
      reads `pendings, `watchers, watchers`pending
    {
      && |pendings| == NUMPRI
      && (forall w :: w in watchers ==> w.pri < NUMPRI && HasSlot(w))
      && (forall p, i :: 0 <= p < NUMPRI && 0 <= i < |pendings[p]| ==> SlotLinked(p, i))
    }

    ghost predicate HasSlot(w: Watcher)
      requires |pendings| == NUMPRI && w.pri < NUMPRI
      reads `pendings, w`pending
    {
      w.pending > 0 ==> w.pending <= |pendings[w.pri]| && pendings[w.pri][w.pending - 1].w == Some(w)
    }

    ghost predicate SlotLinked(p: nat, i: nat)
      requires |pendings| == NUMPRI && p < NUMPRI && i < |pendings[p]|
      reads `pendings, `watchers, watchers`pending
    {
      pendings[p][i].w.Some? ==>
        var w := pendings[p][i].w.value;
        w in watchers && w.pri == p && w.pending == i + 1
    }

    /** The queues say the same as the history. */
    ghost predicate Faithful()
      requires Linked()
      reads `pendings, `watchers, `history, watchers`pending
    {
      && (forall w :: w in watchers ==> Tells(w))
      && (forall j :: 0 <= j < |history| ==> history[j].w in watchers)
      && WellServed(history)
    }

    ghost predicate Tells(w: Watcher)
      requires |pendings| == NUMPRI && w.pri < NUMPRI && HasSlot(w)
      reads `pendings, `history, w`pending
    {
      Waiting(history, w) == (w.pending > 0) && Mask(history, w) == EventsOf(w)
    }

    ghost function EventsOf(w: Watcher): bv32
      requires |pendings| == NUMPRI && w.pri < NUMPRI && HasSlot(w)
      reads `pendings, w`pending
    {
      if w.pending > 0 then pendings[w.pri][w.pending - 1].events else 0
    }

    /** Within a priority, the higher slot started to wait later. */
    ghost predicate Stacked()
      reads `watchers, `history, watchers`pending
    {
      forall v, w :: v in watchers && w in watchers && v.pri == w.pri && 0 < v.pending < w.pending ==>
        Since(history, v) < Since(history, w)
    }

    ghost predicate Valid()
      reads `pendings, `watchers, `history, watchers`pending
    {
      Linked() && Faithful() && Stacked()
    }

    /** What keeps the order: a fresh slot lies above all others of its priority. */
    twostate lemma StillStacked(a: Act)
      requires old(Stacked()) && watchers == old(watchers) && a.w in watchers && history == old(history) + [a]
      requires old(forall w :: w in watchers ==> Waiting(history, w) == (w.pending > 0))
      requires forall v :: v in watchers && v != a.w ==> v.pending == old(v.pending)
      requires !a.Fed? ==> a.w.pending == 0
      requires a.Fed? && old(a.w.pending) > 0 ==> a.w.pending == old(a.w.pending)
      requires a.Fed? && old(a.w.pending) == 0 ==> OnTop(a.w)
      ensures Stacked()
    {
      forall v, w | v in watchers && w in watchers && v.pri == w.pri && 0 < v.pending < w.pending
        ensures Since(history, v) < Since(history, w)
      {
        AppendAct(old(history), a, v);
        AppendAct(old(history), a, w);
        SinceIsPast(old(history), v);
      }
    }

    ghost predicate OnTop(w: Watcher)
      reads `watchers, watchers`pending, w`pending
    {
      w.pending > 0 && forall v :: v in watchers && v != w && v.pri == w.pri ==> v.pending < w.pending
    }

    /** No watcher but w was given, lost or changed a slot. */
    twostate predicate OthersKept(w: Watcher)
      requires old(Linked()) && Linked()
      reads `pendings, `watchers, watchers`pending
    {
      && watchers == old(watchers)
      && forall v :: v in watchers && v != w ==> v.pending == old(v.pending) && EventsOf(v) == old(EventsOf(v))
    }

    /** The slot of a.w follows a; so the queues follow the history that ends with a. */
    twostate lemma StillValid(a: Act)
      requires old(Valid()) && Linked() && a.w in watchers && history == old(history) + [a] && OthersKept(a.w)
      requires a.Called? ==> old(CallIsDue(history, a.w, a.events))
      requires !a.Fed? ==> a.w.pending == 0
      requires a.Fed? ==> a.w.pending > 0 && EventsOf(a.w) == Mask(history, a.w)
      requires a.Fed? ==> if old(a.w.pending) > 0 then a.w.pending == old(a.w.pending) else OnTop(a.w)
      ensures Valid()
    {
      AppendServed(old(history), a);
      forall v | v in watchers
        ensures Tells(v)
      {
        assert old(Tells(v));
        AppendAct(old(history), a, v);
      }
      StillStacked(a);
    }

    constructor ()
      ensures Valid() && watchers == {} && history == [] && pendings == seq(NUMPRI, _ => [])
    {
      pendings := seq(NUMPRI, _ => []);
      pendingpri := 0;
      watchers, history := {}, [];
    }

    /** ev_init: a watcher that is not pending comes under the care of the loop. */
    method Init(w: Watcher)
      requires Valid() && w !in watchers && w.pri < NUMPRI && w.pending == 0
      modifies this`watchers
      ensures Valid() && watchers == old(watchers) + {w}
    {
      watchers := watchers + {w};
      StillLinked(w);
      NeverFed(history, w);
    }

    twostate lemma StillLinked(w: Watcher)
      requires old(Linked()) && pendings == old(pendings) && watchers == old(watchers) + {w} && w.pri < NUMPRI &&
        w.pending == 0
      requires forall v :: v in old(watchers) ==> v.pending == old(v.pending)
      ensures Linked()
    {
      forall r, j | 0 <= r < NUMPRI && 0 <= j < |pendings[r]|
        ensures SlotLinked(r, j)
      {
        assert old(SlotLinked(r, j));
      }
      forall v | v in old(watchers)
        ensures HasSlot(v)
      {
        assert old(HasSlot(v));
      }
    }

    /** ev_feed_event: at most one slot per watcher, which collects the events. */
    method FeedEvent(w: Watcher, revents: bv32)
      requires Valid() && w in watchers
      modifies this`pendings, this`pendingpri, this`history, w`pending
      ensures Valid() && history == old(history) + [Fed(w, revents)] && pendingpri == NUMPRI - 1
    {
      pendingpri := NUMPRI - 1;
      if w.pending != 0 { Merge(w, revents); } else { Enqueue(w, revents); }
    }

    method Merge(w: Watcher, revents: bv32)
      requires Valid() && w in watchers && w.pending > 0
      modifies this`pendings, this`history
      ensures Valid() && history == old(history) + [Fed(w, revents)]
    {
      MaskWith(w, revents);
      AddEvents(w, revents, Mask(history + [Fed(w, revents)], w));
      history := history + [Fed(w, revents)];
      StillValid(Fed(w, revents));
    }

    /** What the slot of w must hold after one more feed. */
    lemma MaskWith(w: Watcher, revents: bv32)
      requires Valid() && w in watchers
      ensures IsMerged(Mask(history + [Fed(w, revents)], w), EventsOf(w), revents)
    {
      assert Tells(w);
      AppendAct(history, Fed(w, revents), w);
    }

    ghost predicate IsMerged(mask: bv32, events: bv32, revents: bv32) {
      mask == events | revents
    }

    method AddEvents(w: Watcher, revents: bv32, ghost mask: bv32)
      requires Linked() && w in watchers && w.pending > 0 && IsMerged(mask, EventsOf(w), revents)
      modifies this`pendings
      ensures Linked() && OthersKept(w) && EventsOf(w) == mask
    {
      var p, i := w.pri, w.pending - 1;
      var q := pendings[p];
      var merged := Combine(q[i].events, revents, mask);
      PutEvents(w, merged);
    }

    method Combine(events: bv32, revents: bv32, ghost mask: bv32) returns (merged: bv32)
      requires IsMerged(mask, events, revents)
      ensures merged == mask
    {
      merged := events | revents;
    }

    method PutEvents(w: Watcher, events: bv32)
      requires Linked() && w in watchers && w.pending > 0
      modifies this`pendings
      ensures Linked() && OthersKept(w) && EventsOf(w) == events
    {
      var p, i := w.pri, w.pending - 1;
      var q := pendings[p];
      pendings := pendings[p := q[i := q[i].(events := events)]];
      forall r, j | 0 <= r < NUMPRI && 0 <= j < |pendings[r]|
        ensures SlotLinked(r, j)
      {
        assert j < old(|pendings[r]|) ==> old(SlotLinked(r, j));
      }
    }

    method Enqueue(w: Watcher, revents: bv32)
      requires Valid() && w in watchers && w.pending == 0
      modifies this`pendings, this`history, w`pending
      ensures Valid() && history == old(history) + [Fed(w, revents)]
    {
      NewSlot(w, revents);
      history := history + [Fed(w, revents)];
      AppendAct(old(history), Fed(w, revents), w);
      StillValid(Fed(w, revents));
    }

    method NewSlot(w: Watcher, revents: bv32)
      requires Linked() && w in watchers && w.pending == 0
      modifies this`pendings, w`pending
      ensures Linked() && OthersKept(w) && OnTop(w) && EventsOf(w) == revents
    {
      var p := w.pri;
      w.pending := |pendings[p]| + 1;
      pendings := pendings[p := pendings[p] + [Slot(Some(w), revents)]];
      forall r, j | 0 <= r < NUMPRI && 0 <= j < |pendings[r]|
        ensures SlotLinked(r, j)
      {
        assert j < old(|pendings[r]|) ==> old(SlotLinked(r, j));
      }
      forall v | v in watchers && v != w
        ensures HasSlot(v) && (v.pri == w.pri ==> v.pending < w.pending)
      {
        assert old(HasSlot(v));
      }
    }

    /** ev_clear_pending: the slot stays, emptied; what it held is returned. */
    method ClearPending(w: Watcher) returns (events: bv32)
      requires Valid() && w in watchers
      modifies this`pendings, this`history, w`pending
      ensures Valid() && history == old(history) + [Cleared(w)] && events == Mask(old(history), w)
      ensures forall p :: 0 <= p < NUMPRI ==> |pendings[p]| == |old(pendings)[p]|
    {
      events := 0;
      if w.pending != 0 {
        events := pendings[w.pri][w.pending - 1].events;
        Blank(w);
      }
      history := history + [Cleared(w)];
      StillValid(Cleared(w));
    }

    /** The slot of w now belongs to the dummy watcher. */
    method Blank(w: Watcher)
      requires Linked() && w in watchers && w.pending > 0
      modifies this`pendings, w`pending
      ensures Linked() && w.pending == 0 && OthersKept(w)
      ensures forall p :: 0 <= p < NUMPRI ==> |pendings[p]| == |old(pendings)[p]|
    {
      var p, i := w.pri, w.pending - 1;
      var q := pendings[p];
      pendings := pendings[p := q[i := q[i].(w := None)]];
      w.pending := 0;
      forall v | v in watchers
        ensures HasSlot(v)
      {
        assert old(HasSlot(v));
      }
      forall r, j | 0 <= r < NUMPRI && 0 <= j < |pendings[r]|
        ensures SlotLinked(r, j)
      {
        assert old(SlotLinked(r, j));
      }
    }

    /** Nothing is queued above pendingpri. */
    ghost predicate NoneAbove()
      requires |pendings| == NUMPRI
      reads `pendings, `pendingpri
    {
      0 <= pendingpri < NUMPRI && forall p :: pendingpri < p < NUMPRI ==> pendings[p] == []
    }

    /** Takes the last slot of the current queue; a live one is marked as called. */
    method Pop() returns (slot: Slot)
      requires Valid() && NoneAbove() && pendings[pendingpri] != []
      modifies this`pendings, this`history, watchers`pending
      ensures Valid() && NoneAbove()
      ensures |pendings[pendingpri]| == |old(pendings)[pendingpri]| - 1
      ensures slot.w.Some? ==> slot.w.value in watchers
      ensures slot.w.Some? ==>
        IsNext(old(history), slot.w.value) && slot.events == Mask(old(history), slot.w.value) &&
        history == old(history) + [Called(slot.w.value, slot.events)]
      ensures slot.w.None? ==> history == old(history)
    {
      slot := pendings[pendingpri][|pendings[pendingpri]| - 1];
      assert SlotLinked(pendingpri, |pendings[pendingpri]| - 1);
      if slot.w.Some? { PopLive(slot.w.value); } else { PopDead(); }
    }

    method PopLive(w: Watcher)
      requires Valid() && NoneAbove() && w in watchers && w.pri == pendingpri && w.pending == |pendings[pendingpri]| > 0
      modifies this`pendings, this`history, w`pending
      ensures Valid() && NoneAbove()
      ensures |pendings[pendingpri]| == |old(pendings)[pendingpri]| - 1
      ensures history == old(history) + [Called(w, old(EventsOf(w)))] && old(CallIsDue(history, w, EventsOf(w)))
    {
      ghost var act := Called(w, EventsOf(w));
      CallDue(w);
      DropTop(w);
      history := history + [act];
      StillValid(act);
    }

    method DropTop(w: Watcher)
      requires Linked() && NoneAbove() && w in watchers && w.pri == pendingpri &&
        w.pending == |pendings[pendingpri]| > 0
      modifies this`pendings, w`pending
      ensures Linked() && NoneAbove() && OthersKept(w) && w.pending == 0
      ensures |pendings[pendingpri]| == |old(pendings)[pendingpri]| - 1
    {
      var p := pendingpri;
      pendings := pendings[p := pendings[p][..|pendings[p]| - 1]];
      w.pending := 0;
      forall v | v in watchers
        ensures HasSlot(v)
      {
        assert old(HasSlot(v));
      }
      forall r, j | 0 <= r < NUMPRI && 0 <= j < |pendings[r]|
        ensures SlotLinked(r, j)
      {
        assert old(SlotLinked(r, j));
      }
    }

    method PopDead()
      requires Valid() && NoneAbove() && pendings[pendingpri] != []
      requires pendings[pendingpri][|pendings[pendingpri]| - 1].w.None?
      modifies this`pendings
      ensures Valid() && NoneAbove()
      ensures |pendings[pendingpri]| == |old(pendings)[pendingpri]| - 1
    {
      var p := pendingpri;
      pendings := pendings[p := pendings[p][..|pendings[p]| - 1]];
      forall v | v in watchers
        ensures HasSlot(v) && Tells(v)
      {
        assert old(HasSlot(v) && Tells(v));
      }
      forall r, j | 0 <= r < NUMPRI && 0 <= j < |pendings[r]|
        ensures SlotLinked(r, j)
      {
        assert old(SlotLinked(r, j));
      }
    }

    lemma CallDue(w: Watcher)
      requires Valid() && NoneAbove() && w in watchers && w.pri == pendingpri && w.pending == |pendings[pendingpri]| > 0
      ensures CallIsDue(history, w, EventsOf(w))
    {
      assert Tells(w);
      forall j | 0 <= j < |history| && Waiting(history, history[j].w)
        ensures GoesFirst(history, w, history[j].w)
      {
        assert Tells(history[j].w) && HasSlot(history[j].w);
      }
    }

    ghost predicate Known(body: seq<Op>)
      reads `watchers
    {
      forall i :: 0 <= i < |body| && !body[i].Invoke? ==> body[i].w in watchers
    }

    ghost predicate AllKnown(bodies: seq<seq<Op>>)
      reads `watchers
    {
      forall i :: 0 <= i < |bodies| ==> Known(bodies[i])
    }

    /** The body of a callback. Each nested or later call takes its own body from `rest`. */
    method RunBody(body: seq<Op>, rest: seq<seq<Op>>) returns (left: seq<seq<Op>>)
      requires Valid() && NoneAbove() && Known(body) && AllKnown(rest)
      modifies this`pendings, this`pendingpri, this`history, watchers`pending
      ensures Valid() && NoneAbove() && AllKnown(left)
      ensures |left| <= |rest| && Outcome(history, left) == Performed(old(history), body, rest)
      decreases |rest|, 2, |body|
    {
      left := rest;
      if body == [] { return; }
      match body[0] {
        case Feed(w, events) => FeedEvent(w, events);
        case Clear(w) => var events := ClearPending(w);
        case Invoke => left := InvokePending(left);
      }
      assert Known(body[1..]);
      left := RunBody(body[1..], left);
    }

    /**
     ev_invoke_pending. The callbacks are arbitrary: the next one called runs bodies[0], and so
     on; when the bodies are used up callbacks do nothing. A return leaves every queue empty.
     */
    method InvokePending(bodies: seq<seq<Op>>) returns (rest: seq<seq<Op>>)
      requires Valid() && AllKnown(bodies)
      modifies this`pendings, this`pendingpri, this`history, watchers`pending
      ensures Valid() && AllKnown(rest)
      ensures pendingpri == 0 && forall p :: 0 <= p < NUMPRI ==> pendings[p] == []
      ensures forall w :: w in watchers ==> !Waiting(history, w)
      ensures |rest| <= |bodies| && Outcome(history, rest) == Dispatched(old(history), bodies)
      decreases |bodies|, 1
    {
      pendingpri := NUMPRI;
      rest := DrainAll(bodies);
      NoneWaiting(rest);
    }

    /** The outer loop: from the highest priority down, again and again from where a callback has left it. */
    method DrainAll(bodies: seq<seq<Op>>) returns (rest: seq<seq<Op>>)
      requires Valid() && AllKnown(bodies) && pendingpri == NUMPRI
      modifies this`pendings, this`pendingpri, this`history, watchers`pending
      ensures Valid() && AllKnown(rest) && |rest| <= |bodies|
      ensures pendingpri == 0 && forall p :: 0 <= p < NUMPRI ==> pendings[p] == []
      ensures Dispatched(history, rest) == Dispatched(old(history), bodies)
      decreases |bodies|, 0, 2
    {
      rest := bodies;
      while pendingpri != 0
        invariant Valid() && AllKnown(rest) && |rest| <= |bodies|
        invariant Dispatched(history, rest) == Dispatched(old(history), bodies)
        invariant 0 <= pendingpri <= NUMPRI && forall p :: pendingpri <= p < NUMPRI ==> pendings[p] == []
        decreases |rest|, pendingpri
      {
        pendingpri := pendingpri - 1;
        rest := DrainCurrent(rest);
      }
    }

    /** With empty queues there is nothing more to dispatch. */
    lemma NoneWaiting(rest: seq<seq<Op>>)
      requires Valid() && forall p :: 0 <= p < NUMPRI ==> pendings[p] == []
      ensures Dispatched(history, rest) == Outcome(history, rest)
      ensures forall w :: w in watchers ==> !Waiting(history, w)
    {
      forall w | w in watchers
        ensures !Waiting(history, w)
      {
        assert Tells(w) && HasSlot(w);
      }
    }

    /** The last slot of the current queue: a watcher is called and its callback runs a body. */
    method CallNext(bodies: seq<seq<Op>>) returns (rest: seq<seq<Op>>)
      requires Valid() && AllKnown(bodies) && NoneAbove() && pendings[pendingpri] != []
      modifies this`pendings, this`pendingpri, this`history, watchers`pending
      ensures Valid() && AllKnown(rest) && NoneAbove()
      ensures |rest| < |bodies| ||
        (rest == bodies && pendingpri == old(pendingpri) &&
          |pendings[pendingpri]| < |old(pendings)[pendingpri]|)
      ensures Dispatched(history, rest) == Dispatched(old(history), bodies)
      decreases |bodies|, 0, 0
    {
      rest := bodies;
      var slot := Pop();
      if slot.w.Some? {
        DispatchStep(old(history), bodies, slot.w.value);
        if rest != [] { rest := RunBody(rest[0], rest[1..]); }
      }
    }

    /** The inner loop: the current queue, which a callback may make a higher one. */
    method DrainCurrent(bodies: seq<seq<Op>>) returns (rest: seq<seq<Op>>)
      requires Valid() && AllKnown(bodies) && NoneAbove()
      modifies this`pendings, this`pendingpri, this`history, watchers`pending
      ensures Valid() && AllKnown(rest) && NoneAbove() && pendings[pendingpri] == []
      ensures |rest| < |bodies| || (|rest| == |bodies| && pendingpri == old(pendingpri))
      ensures Dispatched(history, rest) == Dispatched(old(history), bodies)
      decreases |bodies|, 0, 1
    {
      rest := bodies;
      while pendings[pendingpri] != []
        invariant Valid() && AllKnown(rest) && NoneAbove()
        invariant Dispatched(history, rest) == Dispatched(old(history), bodies)
        invariant |rest| < |bodies| || (|rest| == |bodies| && pendingpri == old(pendingpri))
        decreases |rest|, |pendings[pendingpri]|
      {
        rest := CallNext(rest);
      }
    }
  }
}
