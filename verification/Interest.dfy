/**
 Descriptor watchers of libev: ev_io_start, ev_io_stop, fd_change and fd_reify, which brings the
 set of polled descriptors into agreement with the active watchers.
 */
module Interest {
  import opened PollSet

  const EV_IOFDSET: bv8 := 0x80       // EV__IOFDSET
  const EV_ANFD_REIFY: bv8 := 0x01
  const EV_RW: bv8 := 0x03            // EV_READ | EV_WRITE

  class IoWatcher {
    var fd: int
    var events: bv8
    var active: bool

    /** ev_io_init and ev_io_set. */
    constructor (fd: int, events: bv8)
      ensures this.fd == fd && this.events == events | EV_IOFDSET && !active
    {
      this.fd, this.events, active := fd, events | EV_IOFDSET, false;
    }
  }

  datatype Anfd = Anfd(head: seq<IoWatcher>, events: bv8, reify: bv8)

  ghost function Members(ws: seq<IoWatcher>): set<IoWatcher> {
    set i | 0 <= i < |ws| :: ws[i]
  }

  /** The OR of the events of a list of watchers. */
  ghost function OrOf(ws: seq<IoWatcher>): bv8
    reads Members(ws)`events
  {
    if ws == [] then 0
    else
      assert ws[|ws| - 1] in Members(ws) && Members(ws[..|ws| - 1]) <= Members(ws);
      OrOf(ws[..|ws| - 1]) | ws[|ws| - 1].events
  }

  lemma OrBit(a: bv8, b: bv8, bit: bv8)
    ensures (a | b) & bit != 0 <==> a & bit != 0 || b & bit != 0
  {
  }

  lemma {:induction false} OrOfBit(ws: seq<IoWatcher>, bit: bv8)
    ensures OrOf(ws) & bit != 0 <==> exists i :: 0 <= i < |ws| && HasBit(ws[i], bit)
  {
    if ws != [] {
      var n := |ws| - 1;
      OrOfBit(ws[..n], bit);
      OrBit(OrOf(ws[..n]), ws[n].events, bit);
      assert forall i :: 0 <= i < n ==> ws[..n][i] == ws[i];
      assert HasBit(ws[n], bit) <==> ws[n].events & bit != 0;
    }
  }

  ghost predicate HasBit(w: IoWatcher, bit: bv8)
    reads w`events
  {
    w.events & bit != 0
  }

  twostate lemma {:induction false} SameOr(ws: seq<IoWatcher>)
    requires forall i :: 0 <= i < |ws| ==> ws[i].events == old(ws[i].events)
    ensures OrOf(ws) == old(OrOf(ws))
  {
    if ws != [] { SameOr(ws[..|ws| - 1]); }
  }

  ghost predicate Legal(events: bv8) {
    events & !EV_RW == 0
  }

  lemma Unmasked(events: bv8)
    requires events & !(EV_IOFDSET | EV_RW) == 0
    ensures Legal(events & !EV_IOFDSET) && (events & EV_IOFDSET) | EV_ANFD_REIFY != 0
  {
  }

  ghost predicate NoRepeats<T>(s: seq<T>) {
    forall i, j :: 0 <= i < j < |s| ==> s[i] != s[j]
  }

  datatype IoOp = StartOp(w: IoWatcher) | StopOp(w: IoWatcher)

  /** Whether w is active after the operations: the last one about it decides. */
  ghost function EndsActive(ops: seq<IoOp>, w: IoWatcher, before: bool): bool {
    if ops == [] then before
    else if ops[|ops| - 1].w == w then ops[|ops| - 1].StartOp?
    else EndsActive(ops[..|ops| - 1], w, before)
  }

  lemma StartableStill(events: bv8)
    ensures events & !(EV_IOFDSET | EV_RW) == 0 ==> (events & !EV_IOFDSET) & !(EV_IOFDSET | EV_RW) == 0
  {
  }

  class IoLoop {
    var anfds: seq<Anfd>
    var fdchanges: seq<nat>
    const poll: Poll
    ghost var watchers: set<IoWatcher>

    /** The list of fd holds active watchers of fd, each once. */
    ghost predicate ListOk(fd: nat)
      requires fd < |anfds|
      reads `anfds, `watchers, watchers
    {
      && NoRepeats(anfds[fd].head)
      && forall i :: 0 <= i < |anfds[fd].head| ==> Listed(anfds[fd].head[i], fd)
    }

    ghost predicate Listed(w: IoWatcher, fd: nat)
      reads `watchers, watchers
    {
      w in watchers && w.active && w.fd == fd && Legal(w.events)
    }

    ghost predicate ActiveOk(w: IoWatcher)
      reads `anfds, w
    {
      w.active ==> 0 <= w.fd < |anfds| && w in anfds[w.fd].head
    }

    /** A descriptor is marked exactly when it is, once, on the list of changes. */
    ghost predicate MarksOk(todo: seq<nat>)
      reads `anfds
    {
      && NoRepeats(todo)
      && (forall i :: 0 <= i < |todo| ==> todo[i] < |anfds|)
      && forall fd :: 0 <= fd < |anfds| ==> (anfds[fd].reify != 0 <==> fd in todo)
    }

    ghost predicate Marked(fd: int)
      reads `anfds
    {
      0 <= fd < |anfds| && anfds[fd].reify != 0
    }

    /** An unmarked descriptor is registered for what its watchers want. */
    ghost predicate Settled(fd: nat)
      requires fd < |anfds| && ListOk(fd)
      reads `anfds, `watchers, watchers
    {
      anfds[fd].reify == 0 ==> anfds[fd].events == OrOf(anfds[fd].head)
    }

    ghost function Registered(): map<nat, bv16>
      reads `anfds
    {
      map fd: nat | fd < |anfds| && anfds[fd].events != 0 :: PollBits(anfds[fd].events)
    }

    ghost predicate ListsOk()
      reads `anfds, `watchers, watchers
    {
      (forall fd :: 0 <= fd < |anfds| ==> ListOk(fd)) && (forall w :: w in watchers ==> ActiveOk(w))
    }

    ghost predicate ValidFor(todo: seq<nat>)
      reads `anfds, `watchers, watchers, poll
    {
      && ListsOk() && MarksOk(todo)
      && (forall fd :: 0 <= fd < |anfds| ==> Settled(fd))
      && poll.Valid() && poll.Interest() == Registered()
    }

    ghost predicate Valid()
      reads this, watchers, poll
    {
      ValidFor(fdchanges)
    }

    constructor ()
      ensures Valid() && anfds == [] && fdchanges == [] && watchers == {} && fresh(poll) && poll.Interest() == map[]
    {
      poll := new Poll();
      anfds, fdchanges, watchers := [], [], {};
    }

    /** ev_io_init: an inactive watcher comes under the care of the loop. */
    method Init(w: IoWatcher)
      requires Valid() && w !in watchers && !w.active
      modifies `watchers
      ensures Valid() && watchers == old(watchers) + {w}
    {
      watchers := watchers + {w};
      KeptLists(w);
    }

    twostate lemma KeptLists(w: IoWatcher)
      requires old(ListsOk()) && old(forall f :: 0 <= f < |anfds| ==> Settled(f)) && anfds == old(anfds)
      requires watchers == old(watchers) + {w} && !w.active
      requires forall v :: v in old(watchers) ==>
        v.events == old(v.events) && v.active == old(v.active) && v.fd == old(v.fd)
      ensures ListsOk() && forall f :: 0 <= f < |anfds| ==> Settled(f)
    {
      forall f | 0 <= f < |anfds|
        ensures ListOk(f) && Settled(f)
      {
        var head := anfds[f].head;
        assert old(ListOk(f) && Settled(f));
        assert forall i :: 0 <= i < |head| ==> old(Listed(head[i], f)) && Listed(head[i], f);
        SameOr(head);
      }
    }

    /** fd_change. */
    method FdChange(fd: nat, flags: bv8)
      requires fd < |anfds| && MarksOk(fdchanges) && flags != 0
      modifies `anfds, `fdchanges
      ensures anfds == old(anfds)[fd := old(anfds)[fd].(reify := old(anfds)[fd].reify | flags)]
      ensures MarksOk(fdchanges) && anfds[fd].reify != 0
    {
      var reify := anfds[fd].reify;
      anfds := anfds[fd := anfds[fd].(reify := reify | flags)];
      assert reify | flags != 0;
      if reify == 0 {
        fdchanges := fdchanges + [fd];
      }
    }

    /** array_needsize (anfds): new entries are zero. */
    method Grow(fd: nat)
      requires Valid()
      modifies `anfds
      ensures Valid() && fd < |anfds| && old(anfds) <= anfds && forall f :: old(|anfds|) <= f < |anfds| ==>
        anfds[f].head == []
    {
      if |anfds| <= fd {
        anfds := anfds + seq(fd + 1 - |anfds|, _ => Anfd([], 0, 0));
        forall f | 0 <= f < |anfds|
          ensures ListOk(f) && Settled(f)
        {
          assert f < old(|anfds|) ==> old(ListOk(f) && Settled(f));
        }
        assert Registered() == old(Registered());
      }
    }

    /** ev_io_start; an illegal mask or descriptor is an assertion failure in the source. */
    method Start(w: IoWatcher)
      requires Valid() && w in watchers
      requires !w.active ==> w.fd >= 0 && w.events & !(EV_IOFDSET | EV_RW) == 0
      modifies `anfds, `fdchanges, w`active, w`events
      ensures Valid() && w.active && w.events == (if old(w.active) then old(w.events) else old(w.events) & !EV_IOFDSET)
      ensures old(w.active) ==> anfds == old(anfds) && fdchanges == old(fdchanges)
      ensures !old(w.active) ==>
        Marked(w.fd) && anfds[w.fd].head == [w] + (if w.fd < old(|anfds|) then old(anfds)[w.fd].head else [])
    {
      if w.active { return; }
      Grow(w.fd);
      Unmasked(w.events);
      Link(w, (w.events & EV_IOFDSET) | EV_ANFD_REIFY, w.events & !EV_IOFDSET);
    }

    method Link(w: IoWatcher, flags: bv8, kept: bv8)
      requires Valid() && w in watchers && !w.active && 0 <= w.fd < |anfds| && flags != 0 && Legal(kept)
      modifies `anfds, `fdchanges, w`active, w`events
      ensures Valid() && w.active && w.events == kept
      ensures Marked(w.fd) && anfds[w.fd].head == [w] + old(anfds)[w.fd].head
    {
      var fd := w.fd;
      w.active := true;
      anfds := anfds[fd := anfds[fd].(head := [w] + anfds[fd].head)];
      FdChange(fd, flags);
      w.events := kept;
      StillListed(w);
      SameEvents();
    }

    /** Only the list of w.fd has changed: w is now its first element, and it is marked. */
    twostate lemma StillListed(w: IoWatcher)
      requires watchers == old(watchers) && w in watchers && 0 <= w.fd < |anfds| == old(|anfds|)
      requires old(ListsOk()) && old(forall f :: 0 <= f < |anfds| ==> Settled(f)) && old(!w.active) && w.active &&
        Legal(w.events)
      requires w.fd == old(w.fd) && forall v :: v in watchers && v != w ==>
        v.events == old(v.events) && v.active == old(v.active) && v.fd == old(v.fd)
      requires forall f :: 0 <= f < |anfds| && f != w.fd ==> anfds[f] == old(anfds[f])
      requires anfds[w.fd].head == [w] + old(anfds[w.fd].head) && anfds[w.fd].reify != 0
      ensures ListsOk() && forall f :: 0 <= f < |anfds| ==> Settled(f)
    {
      forall f | 0 <= f < |anfds|
        ensures ListOk(f) && Settled(f)
      {
        var head := old(anfds)[f].head;
        assert old(ListOk(f) && Settled(f));
        assert forall i :: 0 <= i < |head| ==> old(Listed(head[i], f)) && Listed(head[i], f);
        SameOr(head);
      }
    }

    twostate lemma SameEvents()
      requires |anfds| == old(|anfds|) && forall f :: 0 <= f < |anfds| ==> anfds[f].events == old(anfds[f].events)
      ensures Registered() == old(Registered())
    {
    }

    /** ev_io_stop; the pending event it also clears is not part of this state. */
    method Stop(w: IoWatcher)
      requires Valid() && w in watchers
      modifies `anfds, `fdchanges, w`active
      ensures Valid() && !w.active
      ensures !old(w.active) ==> anfds == old(anfds) && fdchanges == old(fdchanges)
      ensures old(w.active) ==>
        Marked(w.fd) && w.fd < old(|anfds|) && anfds[w.fd].head == Without(old(anfds)[w.fd].head, w)
    {
      if !w.active { return; }
      assert ActiveOk(w);
      var fd := w.fd;
      var rest := WlistDel(anfds[fd].head, w);
      assert ListOk(fd);
      WithoutMembers(anfds[fd].head, w);
      anfds := anfds[fd := anfds[fd].(head := rest)];
      w.active := false;
      FdChange(fd, EV_ANFD_REIFY);
      StillUnlisted(w);
      SameEvents();
    }

    /** Only the list of w.fd has changed: it has lost w, and it is marked. */
    twostate lemma StillUnlisted(w: IoWatcher)
      requires watchers == old(watchers) && w in watchers && 0 <= w.fd < |anfds| == old(|anfds|)
      requires old(ListsOk()) && old(forall f :: 0 <= f < |anfds| ==> Settled(f)) && old(w.active) && !w.active
      requires w.fd == old(w.fd) && forall v :: v in watchers && v != w ==>
        v.events == old(v.events) && v.active == old(v.active) && v.fd == old(v.fd)
      requires forall f :: 0 <= f < |anfds| && f != w.fd ==> anfds[f] == old(anfds[f])
      requires NoRepeats(anfds[w.fd].head) && anfds[w.fd].reify != 0
      requires forall v :: v in anfds[w.fd].head <==> v in old(anfds[w.fd].head) && v != w
      ensures ListsOk() && forall f :: 0 <= f < |anfds| ==> Settled(f)
    {
      forall f | 0 <= f < |anfds|
        ensures ListOk(f) && Settled(f)
      {
        var head := old(anfds)[f].head;
        assert old(ListOk(f) && Settled(f));
        assert forall i :: 0 <= i < |head| ==> old(Listed(head[i], f)) && (head[i] != w ==> Listed(head[i], f));
        if f != w.fd {
          SameOr(head);
        } else {
          forall i | 0 <= i < |anfds[f].head|
            ensures Listed(anfds[f].head[i], f)
          {
            assert anfds[f].head[i] in head;
          }
        }
      }
      forall v | v in watchers
        ensures ActiveOk(v)
      {
        assert old(ActiveOk(v));
      }
    }

    /** One round of fd_reify. */
    method ReifyFd(fd: nat, ghost todo: seq<nat>)
      requires ValidFor([fd] + todo)
      modifies `anfds, poll
      ensures ValidFor(todo)
    {
      HeadMark(fd, todo);
      var oevents, oreify := anfds[fd].events, anfds[fd].reify;
      Recompute(fd, todo);
      var events := anfds[fd].events;
      if oevents != events { oreify := EV_IOFDSET; }
      if oreify & EV_IOFDSET != 0 { poll.Modify(fd, oevents, events); }
    }

    /** The descriptor is unmarked and takes the events of its watchers. */
    method Recompute(fd: nat, ghost todo: seq<nat>)
      requires ListsOk() && MarksOk([fd] + todo) && fd < |anfds| && forall f :: 0 <= f < |anfds| ==> Settled(f)
      modifies `anfds
      ensures ListsOk() && MarksOk(todo) && |anfds| == old(|anfds|) && forall f :: 0 <= f < |anfds| ==> Settled(f)
      ensures anfds[fd].events != 0 ==> Registered() == old(Registered())[fd := PollBits(anfds[fd].events)]
      ensures anfds[fd].events == 0 ==> Registered() == old(Registered()) - {fd}
      ensures anfds[fd].events == old(anfds[fd].events) ==> Registered() == old(Registered())
    {
      HeadMark(fd, todo);
      assert ListOk(fd);
      var events := Collect(anfds[fd].head);
      anfds := anfds[fd := anfds[fd].(reify := 0, events := events)];
      StillSettled(fd);
    }

    /** Descriptor fd alone is new, and it is up to date. */
    twostate lemma StillSettled(fd: nat)
      requires watchers == old(watchers) && forall w :: w in watchers ==>
        w.events == old(w.events) && w.active == old(w.active) && w.fd == old(w.fd)
      requires old(ListsOk()) && old(forall f :: 0 <= f < |anfds| ==> Settled(f)) && fd < |anfds| == old(|anfds|)
      requires forall f :: 0 <= f < |anfds| && f != fd ==> anfds[f] == old(anfds[f])
      requires anfds[fd].head == old(anfds[fd].head) && anfds[fd].events == old(OrOf(anfds[fd].head))
      ensures ListsOk() && forall f :: 0 <= f < |anfds| ==> Settled(f)
    {
      forall f | 0 <= f < |anfds|
        ensures ListOk(f) && Settled(f)
      {
        var head := old(anfds)[f].head;
        assert old(ListOk(f) && Settled(f));
        assert forall i :: 0 <= i < |head| ==> old(Listed(head[i], f)) && Listed(head[i], f);
        SameOr(head);
      }
    }

    lemma HeadMark(fd: nat, todo: seq<nat>)
      requires MarksOk([fd] + todo)
      ensures fd < |anfds| && fd !in todo && NoRepeats(todo) && forall i :: 0 <= i < |todo| ==> todo[i] < |anfds|
    {
      var all := [fd] + todo;
      assert all[0] == fd;
      assert forall i :: 0 <= i < |todo| ==> all[i + 1] == todo[i];
    }

    /** fd_reify. */
    method FdReify()
      requires Valid()
      modifies `anfds, `fdchanges, poll
      ensures Valid() && fdchanges == []
      ensures forall fd: nat :: AsWanted(fd)
    {
      var n := |fdchanges|;
      for i := 0 to n
        invariant |fdchanges| == n && ValidFor(fdchanges[i..])
      {
        assert fdchanges[i..] == [fdchanges[i]] + fdchanges[i + 1..];
        ReifyFd(fdchanges[i], fdchanges[i + 1..]);
      }
      assert fdchanges[n..] == [];
      fdchanges := [];
      Agreement();
    }

    /** Any sequence of starts and stops followed by fd_reify. */
    method Run(ops: seq<IoOp>)
      requires Valid() && (forall i :: 0 <= i < |ops| ==> ops[i].w in watchers)
      requires forall w :: w in watchers ==> Startable(w)
      modifies `anfds, `fdchanges, poll, watchers`active, watchers`events
      ensures Valid() && fdchanges == [] && forall fd: nat :: AsWanted(fd)
      ensures forall w :: w in watchers ==> w.active == EndsActive(ops, w, old(w.active))
    {
      for i := 0 to |ops|
        invariant Valid() && forall w :: w in watchers ==> Startable(w)
        invariant forall w :: w in watchers ==> w.active == EndsActive(ops[..i], w, old(w.active))
      {
        StartableStill(ops[i].w.events);
        match ops[i] {
          case StartOp(w) => Start(w);
          case StopOp(w) => Stop(w);
        }
        assert ops[..i + 1][..i] == ops[..i];
      }
      assert ops[..|ops|] == ops;
      FdReify();
    }

    /** What ev_io_start asserts about a watcher. */
    ghost predicate Startable(w: IoWatcher)
      reads w
    {
      w.fd >= 0 && w.events & !(EV_IOFDSET | EV_RW) == 0
    }

    /** Some active watcher of fd wants one of the bits. */
    ghost predicate Wants(fd: nat, bits: bv8)
      reads `watchers, watchers
    {
      exists w :: w in watchers && w.active && w.fd == fd && HasBit(w, bits)
    }

    /** poll is asked for exactly what active watchers want, and not at all if that is nothing. */
    ghost predicate AsWanted(fd: nat)
      requires poll.Valid()
      reads `watchers, watchers, poll
    {
      var m := poll.Interest();
      && (fd in m <==> Wants(fd, EV_RW))
      && (fd in m ==>
        m[fd] == (if Wants(fd, EV_READ) then POLLIN else 0) | (if Wants(fd, EV_WRITE) then POLLOUT else 0))
    }

    lemma Agreement()
      requires ValidFor([])
      ensures forall fd: nat :: AsWanted(fd)
    {
      forall fd: nat
        ensures AsWanted(fd)
      {
        WantedBits(fd, EV_RW);
        WantedBits(fd, EV_READ);
        WantedBits(fd, EV_WRITE);
        if fd < |anfds| {
          assert ListOk(fd) && Settled(fd);
          LegalOr(anfds[fd].head);
        }
      }
    }

    lemma WantedBits(fd: nat, bits: bv8)
      requires ListsOk()
      ensures Wants(fd, bits) <==> fd < |anfds| && OrOf(anfds[fd].head) & bits != 0
    {
      if fd < |anfds| {
        var head := anfds[fd].head;
        OrOfBit(head, bits);
        assert ListOk(fd);
        assert forall i :: 0 <= i < |head| ==> Listed(head[i], fd);
      }
      forall w | w in watchers && w.active && w.fd == fd
        ensures fd < |anfds| && w in anfds[fd].head
      {
        assert ActiveOk(w);
      }
    }
  }

  lemma {:induction false} LegalOr(ws: seq<IoWatcher>)
    requires forall i :: 0 <= i < |ws| ==> Legal(ws[i].events)
    ensures Legal(OrOf(ws)) && (OrOf(ws) != 0 <==> OrOf(ws) & EV_RW != 0)
  {
    if ws != [] { LegalOr(ws[..|ws| - 1]); }
  }

  /** The inner loop of fd_reify. */
  method Collect(head: seq<IoWatcher>) returns (events: bv8)
    ensures events == old(OrOf(head))
  {
    events := 0;
    for i := 0 to |head|
      invariant events == OrOf(head[..i])
    {
      assert head[..i + 1][..i] == head[..i];
      events := events | head[i].events;
    }
    assert head[..|head|] == head;
  }

  ghost function Without(ws: seq<IoWatcher>, w: IoWatcher): seq<IoWatcher> {
    if ws == [] then [] else if ws[0] == w then ws[1..] else [ws[0]] + Without(ws[1..], w)
  }

  lemma {:induction false} WithoutMembers(ws: seq<IoWatcher>, w: IoWatcher)
    requires NoRepeats(ws)
    ensures NoRepeats(Without(ws, w)) && forall v :: v in Without(ws, w) <==> v in ws && v != w
  {
    if ws != [] {
      assert ws == [ws[0]] + ws[1..] && ws[0] !in ws[1..];
      if ws[0] != w {
        WithoutMembers(ws[1..], w);
        assert ws[0] !in Without(ws[1..], w);
      }
    }
  }

  /** wlist_del: the first occurrence goes. */
  method WlistDel(head: seq<IoWatcher>, w: IoWatcher) returns (rest: seq<IoWatcher>)
    ensures rest == Without(head, w)
  {
    var i := 0;
    while i < |head| && head[i] != w
      invariant 0 <= i <= |head| && Without(head, w) == head[..i] + Without(head[i..], w)
    {
      assert head[..i + 1] == head[..i] + [head[i]] && head[i..][1..] == head[i + 1..];
      i := i + 1;
    }
    if i < |head| {
      assert head[i..][1..] == head[i + 1..];
      rest := head[..i] + head[i + 1..];
    } else {
      rest := head;
    }
  }
}
