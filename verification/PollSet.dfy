/** The poll backend of libev: a dense array of pollfds and the index of each descriptor in it. */
module PollSet {
  const EV_READ: bv8 := 0x01
  const EV_WRITE: bv8 := 0x02
  const POLLIN: bv16 := 0x001
  const POLLOUT: bv16 := 0x004

  datatype PollFd = PollFd(fd: nat, events: bv16)

  function PollBits(ev: bv8): bv16 {
    (if ev & EV_READ != 0 then POLLIN else 0) | (if ev & EV_WRITE != 0 then POLLOUT else 0)
  }

  /** EV_READ is asked for as POLLIN, EV_WRITE as POLLOUT, and nothing else is. */
  lemma PollBitsMean(ev: bv8)
    ensures PollBits(ev) & 0x001 != 0 <==> ev & 0x01 != 0
    ensures PollBits(ev) & 0x004 != 0 <==> ev & 0x02 != 0
    ensures PollBits(ev) & !0x005 == 0
  {
  }

  lemma Patched(m: map<nat, bv16>, n: map<nat, bv16>, fd: nat, bits: bv16)
    requires m - {fd} == n - {fd} && fd in m && m[fd] == bits
    ensures m == n[fd := bits]
  {
    forall f: nat | f != fd
      ensures (f in m <==> f in n) && (f in m ==> m[f] == n[f])
    {
      var a, b := m - {fd}, n - {fd};
      assert (f in a <==> f in b) && (f in a ==> a[f] == b[f]);
    }
  }

  class Poll {
    var polls: seq<PollFd>      // the first pollcnt entries
    var pollidxs: seq<int>      // -1 where the descriptor is not polled

    /** Array and index map point at each other. */
    ghost predicate Valid()
      reads this
    {
      && (forall i :: 0 <= i < |polls| ==> polls[i].fd < |pollidxs| && pollidxs[polls[i].fd] == i)
      && (forall fd :: 0 <= fd < |pollidxs| ==> IndexOk(fd))
    }

    ghost predicate IndexOk(fd: nat)
      requires fd < |pollidxs|
      reads this
    {
      -1 <= pollidxs[fd] < |polls| && (pollidxs[fd] >= 0 ==> polls[pollidxs[fd]].fd == fd)
    }

    /** Descriptor f is polled as before. */
    twostate predicate SameFor(f: nat)
      requires f < |pollidxs| == old(|pollidxs|) && IndexOk(f) && old(IndexOk(f))
      reads this
    {
      (pollidxs[f] >= 0) == old(pollidxs[f] >= 0) &&
        (pollidxs[f] >= 0 ==> polls[pollidxs[f]] == old(polls[pollidxs[f]]))
    }

    /** What poll is asked for all descriptors. */
    ghost function Interest(): map<nat, bv16>
      requires Valid()
      reads this
    {
      map fd: nat | fd < |pollidxs| && pollidxs[fd] >= 0 :: (assert IndexOk(fd); polls[pollidxs[fd]].events)
    }

    twostate lemma OthersSame(fd: nat)
      requires old(Valid()) && Valid() && |pollidxs| == old(|pollidxs|)
      requires forall f :: 0 <= f < |pollidxs| && f != fd ==> IndexOk(f) && old(IndexOk(f)) && SameFor(f)
      ensures Interest() - {fd} == old(Interest()) - {fd}
    {
      var now, was := Interest() - {fd}, old(Interest()) - {fd};
      forall f: nat
        ensures (f in now <==> f in was) && (f in now ==> now[f] == was[f])
      {
        if f < |pollidxs| && f != fd {
          assert IndexOk(f) && old(IndexOk(f)) && SameFor(f);
        }
      }
    }

    constructor ()
      ensures Valid() && Interest() == map[] && polls == [] && pollidxs == []
    {
      polls, pollidxs := [], [];
    }

    /** array_needsize (pollidxs): new entries are -1. */
    method Grow(fd: nat)
      requires Valid()
      modifies `pollidxs
      ensures Valid() && fd < |pollidxs| && Interest() == old(Interest())
    {
      if |pollidxs| <= fd {
        pollidxs := pollidxs + seq(fd + 1 - |pollidxs|, _ => -1);
        forall f | 0 <= f < |pollidxs|
          ensures IndexOk(f)
        {
          assert f < old(|pollidxs|) ==> old(IndexOk(f));
        }
      }
    }

    method Allocate(fd: nat)
      requires Valid() && fd < |pollidxs| && pollidxs[fd] < 0
      modifies this
      ensures Valid() && fd < |pollidxs| && pollidxs[fd] >= 0
      ensures Interest().Keys == old(Interest().Keys) + {fd} && Interest() - {fd} == old(Interest())
    {
      pollidxs := pollidxs[fd := |polls|];
      polls := polls + [PollFd(fd, 0)];
      forall f | 0 <= f < |pollidxs|
        ensures IndexOk(f) && (f != fd ==> old(IndexOk(f)) && SameFor(f))
      {
        assert old(IndexOk(f));
      }
      OthersSame(fd);
    }

    /** poll_modify. */
    method Modify(fd: nat, oev: bv8, nev: bv8)
      requires Valid()
      modifies this
      ensures Valid()
      ensures oev == nev ==> Interest() == old(Interest())
      ensures oev != nev && nev != 0 ==> Interest() == old(Interest())[fd := PollBits(nev)]
      ensures oev != nev && nev == 0 ==> Interest() == old(Interest()) - {fd}
    {
      if oev == nev { return; }
      Grow(fd);
      if pollidxs[fd] < 0 { Allocate(fd); }
      if nev != 0 { SetEvents(fd, PollBits(nev)); } else { Drop(fd); }
    }

    method SetEvents(fd: nat, bits: bv16)
      requires Valid() && fd < |pollidxs| && pollidxs[fd] >= 0
      modifies `polls
      ensures Valid() && Interest() == old(Interest())[fd := bits]
    {
      assert IndexOk(fd);
      var idx := pollidxs[fd];
      polls := polls[idx := PollFd(polls[idx].fd, bits)];
      forall f | 0 <= f < |pollidxs|
        ensures IndexOk(f) && (f != fd ==> old(IndexOk(f)) && SameFor(f))
      {
        assert old(IndexOk(f));
      }
      OthersSame(fd);
      assert IndexOk(fd);
      Patched(Interest(), old(Interest()), fd, bits);
    }

    /** The last pollfd takes the place of the one removed. */
    method Drop(fd: nat)
      requires Valid() && fd < |pollidxs| && pollidxs[fd] >= 0
      modifies this
      ensures Valid() && Interest() == old(Interest()) - {fd}
    {
      assert IndexOk(fd);
      var idx, last := pollidxs[fd], |polls| - 1;
      pollidxs := pollidxs[fd := -1];
      if idx < last {
        polls := polls[idx := polls[last]];
        pollidxs := pollidxs[polls[idx].fd := idx];
      }
      polls := polls[..last];
      forall f | 0 <= f < |pollidxs|
        ensures IndexOk(f) && (f != fd ==> old(IndexOk(f)) && SameFor(f))
      {
        assert old(IndexOk(f));
      }
      OthersSame(fd);
    }
  }
}
