/**
 Relative timers of libev: ev_timer_start, ev_timer_stop, ev_timer_again and timers_reify over
 the heap and the pending queues.
 */
module Timers {
  import opened Pending
  import opened TimerHeap

  const EV_TIMER: bv32 := 0x100

  ghost predicate Cached(h: seq<Node>)
    reads Ws(h)`at
  {
    forall x :: x in Items(h) ==> x.at == x.w.at
  }

  /** The nodes that lie before now. */
  ghost function Due(h: seq<Node>, now: real): set<Node> {
    set x | x in Items(h) && x.at < now
  }

  /** When a repeating timer fires next: skipped periods are not made up for. */
  function NextAt(at: real, repeat: real, now: real): real {
    if at + repeat < now then now else at + repeat
  }

  /** What the repeating ones among `fired` become. */
  ghost function Renewed(fired: seq<Node>, now: real): set<Node>
    reads Ws(fired)`repeat
  {
    set x | x in Items(fired) && x.w.repeat != 0.0 :: Node(NextAt(x.at, x.w.repeat, now), x.w)
  }

  /**
   Every fired timer that repeats is back in the heap: one period after the time it fired for, or
   now if that has passed as well; the others are gone.
   */
  ghost predicate FiredAgain(fired: seq<Node>, cur: seq<Node>, now: real)
    reads Ws(fired)`repeat
  {
    forall x :: x in Items(fired) ==>
      if x.w.repeat == 0.0 then x.w !in Ws(cur)
      else Node(if x.at + x.w.repeat >= now then x.at + x.w.repeat else now, x.w) in Items(cur)
  }

  lemma RenewedMeans(start: seq<Node>, fired: seq<Node>, cur: seq<Node>, now: real)
    requires Distinct(start) && Items(fired) <= Items(start) && Distinct(cur)
    requires Items(cur) == Items(start) - Items(fired) + Renewed(fired, now)
    ensures FiredAgain(fired, cur, now)
  {
    forall x | x in Items(fired)
      ensures if x.w.repeat == 0.0 then x.w !in Ws(cur)
        else Node(if x.at + x.w.repeat >= now then x.at + x.w.repeat else now, x.w) in Items(cur)
    {
      if x.w.repeat == 0.0 && x.w in Ws(cur) {
        var y :| y in Items(cur) && y.w == x.w;
        assert false;
      }
    }
  }

  /** The one-shot timers among `fired` lose what was pending for them. */
  ghost function Clears(fired: seq<Node>): seq<Act>
    reads Ws(fired)`repeat
  {
    if fired == [] then []
    else
      var x := fired[|fired| - 1];
      assert x.w in Ws(fired) && Ws(fired[..|fired| - 1]) <= Ws(fired);
      Clears(fired[..|fired| - 1]) + (if x.w.repeat == 0.0 then [Cleared(x.w)] else [])
  }

  lemma OneFired(x: Node, now: real)
    ensures x.w.repeat == 0.0 ==> Clears([x]) == [Cleared(x.w)] && Renewed([x], now) == {}
    ensures x.w.repeat != 0.0 ==> Clears([x]) == [] && Renewed([x], now) == {Node(NextAt(x.at, x.w.repeat, now), x.w)}
  {
    assert Items([x]) == {x} by { assert [x][0] == x; }
    assert Clears([x][..0]) == [];
  }

  lemma OneRenewed(start: seq<Node>, cur: seq<Node>, x: Node, now: real)
    requires Distinct(start) && x in Items(start) && Distinct(cur)
    requires Items(cur) == Items(start) - {x} + Renewed([x], now)
    ensures FiredAgain([x], cur, now)
  {
    assert Items([x]) == {x} by { assert [x][0] == x; }
    RenewedMeans(start, [x], cur, now);
  }

  /** Feeds from the last to the first. */
  ghost function Feeds(ws: seq<Watcher>): (r: seq<Act>)
    ensures |r| == |ws| && forall i :: 0 <= i < |ws| ==> r[i] == Fed(ws[|ws| - 1 - i], EV_TIMER)
  {
    if ws == [] then [] else Feeds(ws[1..]) + [Fed(ws[0], EV_TIMER)]
  }

  lemma FeedsNext(ws: seq<Watcher>, n: nat)
    requires n < |ws|
    ensures Feeds(ws[n..]) == Feeds(ws[n + 1..]) + [Fed(ws[n], EV_TIMER)] && ws[..n + 1][..n] == ws[..n]
  {
    assert ws[n..][1..] == ws[n + 1..];
  }

  ghost function Watchers(fired: seq<Node>): (r: seq<Watcher>)
    ensures |r| == |fired| && forall i :: 0 <= i < |r| ==> r[i] == fired[i].w
  {
    seq(|fired|, i requires 0 <= i < |fired| => fired[i].w)
  }

  ghost predicate InOrder(fired: seq<Node>) {
    forall i, j :: 0 <= i < j < |fired| ==> fired[i].at <= fired[j].at
  }

  class Timers {
    const heap: Heap
    const queues: Queues
    var now: real                 // mn_now
    var rfeeds: seq<Watcher>
    ghost var timers: set<Watcher>

    ghost predicate HeapValid()
      reads heap, `timers, timers`active, timers`at
    {
      && Ws(heap.nodes) <= timers
      && Distinct(heap.nodes) && Ordered(heap.nodes) && Indexed(heap.nodes) && Cached(heap.nodes)
      && forall w :: w in timers && w.active != 0 ==> w in Ws(heap.nodes)
    }

    ghost predicate Valid()
      reads heap, queues, `timers, timers`active, timers`at, queues.watchers`pending
    {
      HeapValid() && queues.Valid() && timers <= queues.watchers
    }

    constructor ()
      ensures Valid() && heap.nodes == [] && timers == {} && rfeeds == [] && now == 0.0 && queues.history == []
      ensures fresh(heap) && fresh(queues)
    {
      heap := new Heap();
      queues := new Queues();
      now, rfeeds, timers := 0.0, [], {};
    }

    /** ev_timer_init: an inactive timer comes under the care of the loop. */
    method Init(w: Watcher)
      requires Valid() && w !in queues.watchers && w.pri < NUMPRI && w.pending == 0 && w.active == 0
      modifies `timers, queues`watchers
      ensures Valid() && timers == old(timers) + {w} && queues.watchers == old(queues.watchers) + {w}
    {
      queues.Init(w);
      timers := timers + {w};
    }

    /** ev_timer_start: a relative time becomes an absolute one. */
    method Start(w: Watcher)
      requires Valid() && w in timers && w.repeat >= 0.0
      modifies heap`nodes, timers`active, w`at
      ensures Valid()
      ensures old(w.active) != 0 ==> heap.nodes == old(heap.nodes) && w.at == old(w.at)
      ensures old(w.active) == 0 ==>
        w.at == old(w.at) + now && Items(heap.nodes) == Items(old(heap.nodes)) + {Node(w.at, w)}
    {
      if w.active != 0 { return; }
      Enter(w);
    }

    /** The heap part of ev_timer_start. */
    method Enter(w: Watcher)
      requires HeapValid() && w in timers && w.active == 0
      modifies heap`nodes, timers`active, w`at
      ensures HeapValid() && w.at == old(w.at) + now
      ensures Items(heap.nodes) == Items(old(heap.nodes)) + {Node(w.at, w)}
    {
      NotQueued(w);
      w.at := w.at + now;
      w.active := |heap.nodes| + HEAP0;
      heap.Insert(Node(w.at, w));
    }

    lemma NotQueued(w: Watcher)
      requires HeapValid() && w in timers && w.active == 0
      ensures w !in Ws(heap.nodes)
    {
    }

    lemma Queued(w: Watcher)
      requires HeapValid() && w in timers && w.active != 0
      ensures HEAP0 <= w.active < |heap.nodes| + HEAP0 && heap.nodes[w.active - HEAP0] == Node(w.at, w)
    {
      var i :| 0 <= i < |heap.nodes| && heap.nodes[i].w == w;
      assert heap.nodes[i] in Items(heap.nodes);
    }

    /** The heap part of ev_timer_stop: an absolute time becomes a relative one. */
    method Unqueue(w: Watcher)
      requires HeapValid() && w in timers && w.active != 0
      modifies heap`nodes, timers`active, w`at
      ensures HeapValid() && w.at == old(w.at) - now && w.active == 0
      ensures Items(heap.nodes) == Items(old(heap.nodes)) - {Node(old(w.at), w)}
    {
      Queued(w);
      heap.Remove(w.active - HEAP0);
      w.at := w.at - now;
      w.active := 0;
    }

    /** ev_timer_stop. */
    method Stop(w: Watcher)
      requires Valid() && w in timers
      modifies heap`nodes, timers`active, w`at, queues`pendings, queues`history, w`pending
      ensures Valid() && queues.history == old(queues.history) + [Cleared(w)] && w.active == 0
      ensures old(w.active) == 0 ==> heap.nodes == old(heap.nodes) && w.at == old(w.at)
      ensures old(w.active) != 0 ==>
        w.at == old(w.at) - now && Items(heap.nodes) == Items(old(heap.nodes)) - {Node(old(w.at), w)}
    {
      var events := queues.ClearPending(w);
      if w.active != 0 { Unqueue(w); }
    }

    /** ev_timer_again: restart a repeating timer, stop any other. */
    method Again(w: Watcher)
      requires Valid() && w in timers && w.repeat >= 0.0
      modifies heap`nodes, timers`active, w`at, queues`pendings, queues`history, w`pending
      ensures Valid() && !Waiting(queues.history, w)
      ensures w.repeat > 0.0 ==> w.at == now + w.repeat && w.active != 0
      ensures w.repeat > 0.0 ==> Items(heap.nodes) == Items(old(heap.nodes)) - {Node(old(w.at), w)} + {Node(w.at, w)}
      ensures w.repeat == 0.0 ==> w.active == 0 && Items(heap.nodes) == Items(old(heap.nodes)) - {Node(old(w.at), w)}
    {
      var events := queues.ClearPending(w);
      AppendAct(old(queues.history), Cleared(w), w);
      if w.active != 0 {
        if w.repeat != 0.0 {
          Requeue(w);
        } else {
          Stop(w);
          AppendAct(old(queues.history) + [Cleared(w)], Cleared(w), w);
        }
      } else {
        assert Node(w.at, w) !in Items(heap.nodes) by { NotQueued(w); }
        if w.repeat != 0.0 { Restart(w); }
      }
    }

    method Restart(w: Watcher)
      requires Valid() && w in timers && w.active == 0 && w.repeat > 0.0
      modifies heap`nodes, timers`active, w`at
      ensures Valid() && w.at == now + w.repeat && w.active != 0
      ensures Items(heap.nodes) == Items(old(heap.nodes)) + {Node(w.at, w)}
    {
      w.at := w.repeat;
      Start(w);
      Listed(w);
    }

    lemma Listed(w: Watcher)
      requires HeapValid() && Node(w.at, w) in Items(heap.nodes)
      ensures w.active != 0
    {
    }

    method Requeue(w: Watcher)
      requires HeapValid() && w in timers && w.active != 0
      modifies heap`nodes, timers`active, w`at
      ensures HeapValid() && w.at == now + w.repeat && w.active != 0
      ensures Items(heap.nodes) == Items(old(heap.nodes)) - {Node(old(w.at), w)} + {Node(w.at, w)}
    {
      Queued(w);
      w.at := now + w.repeat;
      heap.Retime(w.active - HEAP0, w.at);
    }

    /** One round of timers_reify: the earliest timer has expired. */
    method Expire() returns (ghost x: Node)
      requires Valid() && heap.nodes != [] && heap.nodes[0].at < now && heap.nodes[0].w.repeat >= 0.0
      modifies heap`nodes, `rfeeds, timers`active, timers`at, queues`pendings, queues`history, timers`pending
      ensures Valid() && x == old(heap.nodes)[0] && rfeeds == old(rfeeds) + [x.w]
      ensures Items(heap.nodes) == Items(old(heap.nodes)) - {x} + Renewed([x], now)
      ensures FiredAgain([x], heap.nodes, now)
      ensures queues.history == old(queues.history) + Clears([x])
    {
      var w := heap.nodes[0].w;
      x := RescheduleOrStop(w);
      rfeeds := rfeeds + [w];
      OneRenewed(old(heap.nodes), heap.nodes, x, now);
    }

    method RescheduleOrStop(w: Watcher) returns (ghost x: Node)
      requires Valid() && heap.nodes != [] && heap.nodes[0].at < now && w == heap.nodes[0].w && w.repeat >= 0.0
      modifies heap`nodes, timers`active, w`at, queues`pendings, queues`history, w`pending
      ensures Valid() && x == old(heap.nodes)[0]
      ensures Items(heap.nodes) == Items(old(heap.nodes)) - {x} + Renewed([x], now)
      ensures queues.history == old(queues.history) + Clears([x])
    {
      x := heap.nodes[0];
      RootListed();
      OneFired(x, now);
      if w.repeat != 0.0 { Renew(); } else { Stop(w); }
    }

    lemma RootListed()
      requires HeapValid() && heap.nodes != []
      ensures heap.nodes[0].w in timers && heap.nodes[0].w.active != 0 &&
        heap.nodes[0] == Node(heap.nodes[0].w.at, heap.nodes[0].w)
    {
      assert heap.nodes[0] in Items(heap.nodes) && heap.nodes[0].w in Ws(heap.nodes);
    }

    method Renew()
      requires HeapValid() && heap.nodes != [] && heap.nodes[0].at < now && heap.nodes[0].w.repeat > 0.0
      modifies heap`nodes, timers`active, heap.nodes[0].w`at
      ensures HeapValid()
      ensures var x := old(heap.nodes)[0];
        Items(heap.nodes) == Items(old(heap.nodes)) - {x} + {Node(NextAt(x.at, x.w.repeat, now), x.w)}
    {
      var w := heap.nodes[0].w;
      RootListed();
      var at := w.at + w.repeat;
      if at < now { at := now; }
      PostponeTo(at);
    }

    /** The root gets a later time, in the watcher and in the heap. */
    method PostponeTo(at: real)
      requires HeapValid() && heap.nodes != [] && heap.nodes[0].at <= at
      modifies heap`nodes, timers`active, heap.nodes[0].w`at
      ensures HeapValid()
      ensures Items(heap.nodes) == Items(old(heap.nodes)) - {old(heap.nodes)[0]} + {Node(at, old(heap.nodes)[0].w)}
    {
      RootListed();
      heap.nodes[0].w.at := at;
      heap.Postpone(at);
    }

    /** feed_reverse_done: the timer that expired last is fed first. */
    method FeedReverseDone()
      requires queues.Valid() && rfeeds != [] && forall i :: 0 <= i < |rfeeds| ==> rfeeds[i] in queues.watchers
      modifies `rfeeds, queues`pendings, queues`pendingpri, queues`history, set i | 0 <= i < |rfeeds| ::
        rfeeds[i]`pending
      ensures queues.Valid() && rfeeds == [] && queues.history == old(queues.history) + Feeds(old(rfeeds))
    {
      ghost var ws := rfeeds;
      assert ws[|rfeeds|..] == [];
      while rfeeds != []
        invariant queues.Valid() && |rfeeds| <= |ws| && rfeeds == ws[..|rfeeds|]
        invariant queues.history == old(queues.history) + Feeds(ws[|rfeeds|..])
        decreases |rfeeds|
      {
        var n := |rfeeds| - 1;
        var w := rfeeds[n];
        FeedsNext(ws, n);
        rfeeds := rfeeds[..n];
        queues.FeedEvent(w, EV_TIMER);
      }
      assert ws[0..] == ws;
    }

    /** What timers_reify has done so far, seen from the heap and history it found. */
    ghost predicate Reifying(start: seq<Node>, past: seq<Act>, fired: seq<Node>)
      reads this, heap, queues, Ws(fired)`repeat
    {
      && rfeeds == Watchers(fired) && Ws(fired) <= timers
      && Progress(start, heap.nodes, fired, now)
      && queues.history == past + Clears(fired)
    }

    method Round(ghost start: seq<Node>, ghost past: seq<Act>, ghost fired: seq<Node>) returns (ghost more: seq<Node>)
      requires Valid() && Reifying(start, past, fired) && heap.nodes != [] && heap.nodes[0].at < now &&
        heap.nodes[0].w.repeat >= 0.0
      modifies heap`nodes, `rfeeds, timers`active, timers`at, queues`pendings, queues`history, timers`pending
      ensures Valid() && Reifying(start, past, more) && |Due(heap.nodes, now)| < |Due(old(heap.nodes), now)|
    {
      RootListed();
      ghost var before, cleared := queues.history, Clears(fired);
      ghost var x := Expire();
      assert Clears(fired) == cleared;
      RoundStep(start, old(heap.nodes), heap.nodes, past, before, fired, now);
      more := fired + [x];
    }

    /** The loop of timers_reify; the first test of the source is that of the loop. */
    method ExpireAll() returns (ghost fired: seq<Node>)
      requires Valid() && rfeeds == [] && forall w :: w in timers ==> w.repeat >= 0.0
      modifies heap`nodes, `rfeeds, timers`active, timers`at, queues`pendings, queues`history, timers`pending
      ensures Valid() && Reifying(old(heap.nodes), old(queues.history), fired)
      ensures heap.nodes != [] ==> heap.nodes[0].at >= now
    {
      fired := [];
      while heap.nodes != [] && heap.nodes[0].at < now
        invariant Valid() && Reifying(old(heap.nodes), old(queues.history), fired)
        decreases |Due(heap.nodes, now)|
      {
        RootListed();
        fired := Round(old(heap.nodes), old(queues.history), fired);
      }
    }

    method Expiring() returns (ghost fired: seq<Node>)
      requires Valid() && rfeeds == [] && forall w :: w in timers ==> w.repeat >= 0.0
      modifies heap`nodes, `rfeeds, timers`active, timers`at, queues`pendings, queues`history, timers`pending
      ensures Valid() && Reifying(old(heap.nodes), old(queues.history), fired)
      ensures Reified(old(heap.nodes), heap.nodes, fired, now)
    {
      fired := ExpireAll();
      NothingDue(old(heap.nodes), heap.nodes, fired, now);
    }

    /**
     timers_reify. Exactly the timers before now fire, in order of their times; one-shot timers
     leave the heap, the others are renewed, and none before now is left.
     */
    method Reify() returns (ghost fired: seq<Node>)
      requires Valid() && rfeeds == [] && forall w :: w in timers ==> w.repeat >= 0.0
      modifies heap`nodes, `rfeeds, timers`active, timers`at, queues`pendings, queues`pendingpri, queues`history,
        timers`pending
      ensures Valid() && rfeeds == []
      ensures Reified(old(heap.nodes), heap.nodes, fired, now)
      ensures queues.history == old(queues.history) + Clears(fired) + Feeds(Watchers(fired))
    {
      fired := Expiring();
      FeedFired(fired);
    }

    method FeedFired(ghost fired: seq<Node>)
      requires Valid() && rfeeds == Watchers(fired) && Ws(fired) <= timers
      modifies `rfeeds, queues`pendings, queues`pendingpri, queues`history, timers`pending
      ensures Valid() && rfeeds == [] && queues.history == old(queues.history) + Feeds(Watchers(fired))
    {
      if rfeeds != [] {
        forall i | 0 <= i < |rfeeds|
          ensures rfeeds[i] in timers
        {
          assert fired[i].w in Ws(fired);
        }
        FeedReverseDone();
      }
    }
  }

  /** `fired` left the heap in order, and nothing still due in `cur` is before any of it. */
  ghost predicate Progress(start: seq<Node>, cur: seq<Node>, fired: seq<Node>, now: real)
    reads Ws(fired)`repeat
  {
    && Distinct(start) && Distinct(fired) && InOrder(fired) && Items(fired) <= Due(start, now)
    && Items(cur) == Items(start) - Items(fired) + Renewed(fired, now)
    && forall x, y :: x in Items(fired) && y in Due(cur, now) ==> x.at <= y.at
  }

  /**
   The outcome of a pass: exactly the timers before now have fired, in order of their times; the
   one-shot ones are gone, the others are back, and none is due.
   */
  ghost predicate Reified(start: seq<Node>, cur: seq<Node>, fired: seq<Node>, now: real)
    reads Ws(fired)`repeat
  {
    && Distinct(fired) && InOrder(fired) && Items(fired) == Due(start, now)
    && Items(cur) == Items(start) - Items(fired) + Renewed(fired, now)
    && FiredAgain(fired, cur, now) && Due(cur, now) == {}
  }

  /** What is due now was there from the start and has not fired. */
  lemma StillUnfired(start: seq<Node>, cur: seq<Node>, fired: seq<Node>, now: real, x: Node)
    requires Progress(start, cur, fired, now) && x in Due(cur, now)
    ensures x in Items(start) && x !in Items(fired) && x !in Renewed(fired, now) && x.w !in Ws(fired)
  {
    assert x !in Renewed(fired, now);
  }

  lemma RenewedStep(fired: seq<Node>, x: Node, now: real)
    ensures Renewed(fired + [x], now) == Renewed(fired, now) + Renewed([x], now)
    ensures x.w.repeat >= 0.0 ==> forall y :: y in Renewed([x], now) ==> y.at >= now
  {
    AppendItems(fired, x);
    AppendItems([], x);
    assert [] + [x] == [x];
  }

  lemma FiresInOrder(fired: seq<Node>, x: Node)
    requires Distinct(fired) && InOrder(fired) && x.w !in Ws(fired) && forall y :: y in Items(fired) ==> y.at <= x.at
    ensures Distinct(fired + [x]) && InOrder(fired + [x])
  {
    forall i | 0 <= i < |fired|
      ensures fired[i].at <= x.at && fired[i].w != x.w
    {
      assert fired[i] in Items(fired) && fired[i].w in Ws(fired);
    }
  }

  lemma ProgressStep(start: seq<Node>, cur: seq<Node>, next: seq<Node>, fired: seq<Node>, now: real)
    requires Progress(start, cur, fired, now) && cur != [] && Ordered(cur) && cur[0].at < now
    requires cur[0].w.repeat >= 0.0 && Items(next) == Items(cur) - {cur[0]} + Renewed([cur[0]], now)
    ensures Progress(start, next, fired + [cur[0]], now)
    ensures |Due(next, now)| < |Due(cur, now)|
  {
    var x := cur[0];
    assert x in Due(cur, now);
    StillUnfired(start, cur, fired, now, x);
    RenewedStep(fired, x, now);
    AppendItems(fired, x);
    FiresInOrder(fired, x);
    assert Due(next, now) == Due(cur, now) - {x};
    forall y | y in Due(next, now)
      ensures x.at <= y.at
    {
      var i :| 0 <= i < |cur| && cur[i] == y;
      RootIsFirst(cur, i);
    }
  }

  lemma ClearsStep(past: seq<Act>, fired: seq<Node>, h: seq<Act>, x: Node)
    requires h == past + Clears(fired)
    ensures h + Clears([x]) == past + Clears(fired + [x])
    ensures Ws(fired + [x]) == Ws(fired) + {x.w} && Watchers(fired + [x]) == Watchers(fired) + [x.w]
  {
    assert (fired + [x])[..|fired|] == fired;
    assert Clears([x][..0]) == [];
    AppendItems(fired, x);
  }

  lemma RoundStep(start: seq<Node>, cur: seq<Node>, next: seq<Node>, past: seq<Act>, h: seq<Act>, fired: seq<Node>,
    now: real)
    requires Progress(start, cur, fired, now) && cur != [] && Ordered(cur) && cur[0].at < now
    requires cur[0].w.repeat >= 0.0 && Items(next) == Items(cur) - {cur[0]} + Renewed([cur[0]], now)
    requires h == past + Clears(fired)
    ensures var x, more := cur[0], fired + [cur[0]];
      && Progress(start, next, more, now) && |Due(next, now)| < |Due(cur, now)|
      && h + Clears([x]) == past + Clears(more)
      && Ws(more) == Ws(fired) + {x.w} && Watchers(more) == Watchers(fired) + [x.w]
  {
    ProgressStep(start, cur, next, fired, now);
    ClearsStep(past, fired, h, cur[0]);
  }

  lemma NothingDue(start: seq<Node>, cur: seq<Node>, fired: seq<Node>, now: real)
    requires Progress(start, cur, fired, now) && Ordered(cur) && Distinct(cur) && (cur != [] ==> cur[0].at >= now)
    ensures Reified(start, cur, fired, now)
  {
    RenewedMeans(start, fired, cur, now);
    forall x | x in Items(cur)
      ensures x.at >= now
    {
      var i :| 0 <= i < |cur| && cur[i] == x;
      RootIsFirst(cur, i);
    }
    forall x | x in Due(start, now)
      ensures x in Items(fired)
    {
    }
  }

  /** After feed_reverse_done every fired timer waits, the earlier one since later. */
  lemma {:induction false} FedBackwards(g: seq<Act>, ws: seq<Watcher>, i: nat)
    requires i < |ws| && forall a, b :: 0 <= a < b < |ws| ==> ws[a] != ws[b]
    ensures Waiting(g + Feeds(ws), ws[i])
    ensures !Waiting(g, ws[i]) ==> Since(g + Feeds(ws), ws[i]) == |g| + |ws| - 1 - i
    ensures Since(g + Feeds(ws), ws[i]) <= |g| + |ws| - 1 - i
  {
    var rest := g + Feeds(ws[1..]);
    assert g + Feeds(ws) == rest + [Fed(ws[0], EV_TIMER)];
    AppendAct(rest, Fed(ws[0], EV_TIMER), ws[i]);
    if i > 0 {
      FedBackwards(g, ws[1..], i - 1);
    } else {
      NotFed(g, ws[1..], ws[0]);
      SinceIsPast(rest + [Fed(ws[0], EV_TIMER)], ws[0]);
    }
  }

  lemma {:induction false} NotFed(g: seq<Act>, ws: seq<Watcher>, w: Watcher)
    requires w !in ws
    ensures Waiting(g + Feeds(ws), w) == Waiting(g, w)
  {
    if ws == [] {
      assert g + Feeds(ws) == g;
    } else {
      var rest := g + Feeds(ws[1..]);
      assert g + Feeds(ws) == rest + [Fed(ws[0], EV_TIMER)];
      AppendAct(rest, Fed(ws[0], EV_TIMER), w);
      NotFed(g, ws[1..], w);
    }
  }

  /**
   Invocation in order of expiry. `g` is the history when the feeding of `fired` begins and `h`
   any later one. Of two timers of one priority, the earlier not already pending, the later one
   is not called before the earlier one has been called or cleared.
   */
  lemma CalledInExpiryOrder(g: seq<Act>, fired: seq<Node>, h: seq<Act>, t: nat, i: nat, j: nat) returns (s: nat)
    requires Distinct(fired) && InOrder(fired) && i < |fired| && j < |fired| && fired[i].at < fired[j].at
    requires fired[i].w.pri == fired[j].w.pri && !Waiting(g, fired[i].w)
    requires g + Feeds(Watchers(fired)) <= h && WellServed(h) && |g| + |fired| <= t < |h|
    requires h[t].Called? && h[t].w == fired[j].w && forall s :: |g| + |fired| <= s < t && h[s].w == fired[j].w ==>
      h[s].Fed?
    ensures |g| + |fired| <= s < t && h[s].w == fired[i].w && !h[s].Fed?
  {
    var n := |g| + |fired|;
    assert h[..n] == g + Feeds(Watchers(fired));
    FedBackwards(g, Watchers(fired), i);
    FedBackwards(g, Watchers(fired), j);
    s := LaterFirst(h, n, t, fired[i].w, fired[j].w);
  }
}
