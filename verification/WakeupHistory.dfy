/**
 The wakeup protocol seen from outside: each shared variable, and so each thing the loop and
 the senders do, is explained by the steps made before. In particular nothing is fed that was
 not sent.
 */
module WakeupHistory {
  import opened Wakeup

  /** A set of steps of a run, by their positions. */
  type Steps = nat -> bool

  /** A step of `on` before j with no step of `off` since. */
  ghost predicate Since(on: Steps, off: Steps, j: nat) {
    exists k: nat :: LastOn(on, off, k, j)
  }

  ghost predicate LastOn(on: Steps, off: Steps, k: nat, j: nat) {
    k < j && on(k) && forall m :: k < m < j ==> !off(m)
  }

  lemma SinceStep(on: Steps, off: Steps, j: nat)
    ensures Since(on, off, j + 1) <==> on(j) || (Since(on, off, j) && !off(j))
  {
    if on(j) {
      assert LastOn(on, off, j, j + 1);
    } else if Since(on, off, j) && !off(j) {
      var k: nat :| LastOn(on, off, k, j);
      assert LastOn(on, off, k, j + 1);
    }
    if Since(on, off, j + 1) {
      var k: nat :| LastOn(on, off, k, j + 1);
      assert k < j ==> LastOn(on, off, k, j);
    }
  }

  /** What is switched on and off by these steps only. */
  lemma {:induction false} SinceExactly(b: Steps, on: Steps, off: Steps, j: nat)
    requires !b(0) && forall k :: 0 <= k < j ==> b(k + 1) == (on(k) || (b(k) && !off(k)))
    ensures b(j) <==> Since(on, off, j)
  {
    if j > 0 {
      SinceExactly(b, on, off, j - 1);
      SinceStep(on, off, j - 1);
    }
  }

  // ---------- The steps that matter ----------

  ghost predicate SenderStep(run: seq<State>, acts: seq<Act>, k: nat, t: nat, pc: SenderPc) {
    k < |acts| && k < |run| && acts[k] == Moved(t) && SenderAt(run[k].senders, t, {pc})
  }

  ghost predicate AnySender(run: seq<State>, acts: seq<Act>, k: nat, pc: SenderPc) {
    exists t :: SenderStep(run, acts, k, t, pc)
  }

  ghost predicate LoopAt(run: seq<State>, acts: seq<Act>, k: nat, pc: LoopPc) {
    k < |acts| && k < |run| && acts[k].Looped? && run[k].loop == pc
  }

  /** Step k marks ev: that is, ev is sent. */
  ghost predicate Marks(run: seq<State>, acts: seq<Act>, k: nat, ev: Event) {
    exists t :: SenderStep(run, acts, k, t, Mark) && run[k].senders[t].ev == ev
  }

  /** Step k takes the mark of ev away. */
  ghost predicate Unmarks(run: seq<State>, acts: seq<Act>, k: nat, ev: Event) {
    LoopAt(run, acts, k, ClearSent(ev.kind, ev.id))
  }

  /** Step k feeds ev. */
  ghost predicate Feeds(run: seq<State>, acts: seq<Act>, k: nat, ev: Event) {
    LoopAt(run, acts, k, Feed(ev.kind, ev.id))
  }

  ghost function Marking(run: seq<State>, acts: seq<Act>, ev: Event): Steps {
    (k: nat) => Marks(run, acts, k, ev)
  }

  ghost function Unmarking(run: seq<State>, acts: seq<Act>, ev: Event): Steps {
    (k: nat) => Unmarks(run, acts, k, ev)
  }

  ghost function Feeding(run: seq<State>, acts: seq<Act>, ev: Event): Steps {
    (k: nat) => Feeds(run, acts, k, ev)
  }

  // ---------- Debts and marks ----------

  lemma OwedStep(run: seq<State>, acts: seq<Act>, count: Count, k: nat, ev: Event)
    requires IsTrace(run, acts, count) && k < |acts|
    ensures ev in run[k + 1].owed <==> Marks(run, acts, k, ev) || (ev in run[k].owed && !Feeds(run, acts, k, ev))
  {
    TraceStep(run, acts, count, k);
    MarksMeans(run, acts, k, ev);
    var s := run[k];
    match acts[k]
    case Spawned(t, e) =>
    case Moved(t) => SenderMarks(s, t);
    case Looped(c) => LoopMarks(s, c, ev, count);
  }

  lemma SentStep(run: seq<State>, acts: seq<Act>, count: Count, k: nat, ev: Event)
    requires IsTrace(run, acts, count) && k < |acts|
    ensures ev in run[k + 1].sent <==> Marks(run, acts, k, ev) || (ev in run[k].sent && !Unmarks(run, acts, k, ev))
  {
    TraceStep(run, acts, count, k);
    MarksMeans(run, acts, k, ev);
    var s := run[k];
    match acts[k]
    case Spawned(t, e) =>
    case Moved(t) => SenderMarks(s, t);
    case Looped(c) => LoopMarks(s, c, ev, count);
  }

  lemma MarksMeans(run: seq<State>, acts: seq<Act>, k: nat, ev: Event)
    requires k < |acts| && k < |run|
    ensures Marks(run, acts, k, ev) <==>
      acts[k].Moved? && SenderAt(run[k].senders, acts[k].t, {Mark}) && run[k].senders[acts[k].t].ev == ev
  {
    if acts[k].Moved? && SenderAt(run[k].senders, acts[k].t, {Mark}) {
      assert SenderStep(run, acts, k, acts[k].t, Mark);
    }
  }

  lemma SenderMarks(s: State, t: nat)
    requires t in s.senders
    ensures var s' := AfterSender(s, t); var x := s.senders[t];
      && s'.sent == (if x.pc == Mark then s.sent + {x.ev} else s.sent)
      && s'.owed == (if x.pc == Mark then s.owed + {x.ev} else s.owed)
  {
    match s.senders[t].pc
    case Mark =>
    case ReadFlag =>
    case SetFlag =>
    case SetSkipped =>
    case ReadWanted =>
    case UnsetSkipped =>
    case WritePipe =>
    case Returned =>
  }

  lemma LoopMarks(s: State, c: Choice, ev: Event, count: Count)
    requires Allowed(s, c)
    ensures var s' := AfterLoop(s, c, count);
      && (ev in s'.sent <==> ev in s.sent && s.loop != ClearSent(ev.kind, ev.id))
      && (ev in s'.owed <==> ev in s.owed && s.loop != Feed(ev.kind, ev.id))
  {
    if InPass(s.loop) {
      match s.loop
      case ClearSkipped =>
      case TestFlag(k) =>
      case ClearFlag(k) =>
      case Scan(k, i) =>
      case ClearSent(k, i) =>
      case Feed(k, i) =>
    } else {
      PollFrame(s, c);
    }
  }

  /** Owed means exactly: sent at some step, and not fed since. */
  lemma OwedExactly(run: seq<State>, acts: seq<Act>, count: Count, j: nat, ev: Event)
    requires IsTrace(run, acts, count) && j < |run|
    ensures ev in run[j].owed <==> Since(Marking(run, acts, ev), Feeding(run, acts, ev), j)
  {
    var b: Steps := (k: nat) => k < |run| && ev in run[k].owed;
    forall k | 0 <= k < j
      ensures b(k + 1) == (Marks(run, acts, k, ev) || (b(k) && !Feeds(run, acts, k, ev)))
    {
      OwedStep(run, acts, count, k, ev);
    }
    SinceExactly(b, Marking(run, acts, ev), Feeding(run, acts, ev), j);
  }

  /** A mark is there exactly if ev was sent and its mark has not been taken away since. */
  lemma MarkedExactly(run: seq<State>, acts: seq<Act>, count: Count, j: nat, ev: Event)
    requires IsTrace(run, acts, count) && j < |run|
    ensures ev in run[j].sent <==> Since(Marking(run, acts, ev), Unmarking(run, acts, ev), j)
  {
    var b: Steps := (k: nat) => k < |run| && ev in run[k].sent;
    forall k | 0 <= k < j
      ensures b(k + 1) == (Marks(run, acts, k, ev) || (b(k) && !Unmarks(run, acts, k, ev)))
    {
      SentStep(run, acts, count, k, ev);
    }
    SinceExactly(b, Marking(run, acts, ev), Unmarking(run, acts, ev), j);
  }

  /** The loop takes a mark away only if ev was sent and no one has taken that mark away before. */
  lemma UnmarkedWasSent(run: seq<State>, acts: seq<Act>, count: Count, c: nat, ev: Event)
    requires IsTrace(run, acts, count) && Unmarks(run, acts, c, ev)
    ensures Since(Marking(run, acts, ev), Unmarking(run, acts, ev), c)
  {
    TraceStep(run, acts, count, c);
    MarkedExactly(run, acts, count, c, ev);
  }

  lemma FeedBefore(run: seq<State>, acts: seq<Act>, count: Count, k: nat, ev: Event)
    requires IsTrace(run, acts, count) && k < |acts| && AtFeed(run[k + 1], ev)
    ensures if acts[k].Looped? then Unmarks(run, acts, k, ev) else AtFeed(run[k], ev)
  {
    TraceStep(run, acts, count, k);
    match acts[k]
    case Spawned(t, e) =>
    case Moved(t) => SenderFrame(run[k], t);
    case Looped(x) => ReachesFeed(run[k], x, ev, count);
  }

  /** The loop gets to the feed of ev only by taking its mark away, in its step before. */
  lemma {:induction false} FeedFollowsUnmark(run: seq<State>, acts: seq<Act>, count: Count, j: nat, ev: Event)
    returns (c: nat)
    requires IsTrace(run, acts, count) && j < |run| && AtFeed(run[j], ev)
    ensures c < j && Unmarks(run, acts, c, ev) && forall m :: c < m < j ==> !acts[m].Looped?
  {
    assert j > 0;
    FeedBefore(run, acts, count, j - 1, ev);
    if acts[j - 1].Looped? { c := j - 1; } else { c := FeedFollowsUnmark(run, acts, count, j - 1, ev); }
  }

  lemma ReachesFeed(s: State, c: Choice, ev: Event, count: Count)
    requires Allowed(s, c) && AtFeed(AfterLoop(s, c, count), ev)
    ensures s.loop == ClearSent(ev.kind, ev.id)
  {
    if InPass(s.loop) {
      match s.loop
      case ClearSkipped =>
      case TestFlag(k) =>
      case ClearFlag(k) =>
      case Scan(k, i) =>
      case ClearSent(k, i) =>
      case Feed(k, i) =>
    } else {
      PollFrame(s, c);
    }
  }

  /**
   Nothing is fed that was not sent, and no send is fed twice: the feed of ev at j answers a mark
   made at m, which is still there until the loop takes it away at c, its last step before j.
   */
  lemma FedWasSent(run: seq<State>, acts: seq<Act>, count: Count, j: nat, ev: Event) returns (m: nat, c: nat)
    requires IsTrace(run, acts, count) && Feeds(run, acts, j, ev)
    ensures m < c < j && Marks(run, acts, m, ev) && Unmarks(run, acts, c, ev)
    ensures forall k :: m < k < c ==> !Unmarks(run, acts, k, ev)
    ensures forall k :: c < k < j ==> !acts[k].Looped?
  {
    c := FeedFollowsUnmark(run, acts, count, j, ev);
    UnmarkedWasSent(run, acts, count, c, ev);
    m :| LastOn(Marking(run, acts, ev), Unmarking(run, acts, ev), m, c);
    forall k | m < k < c
      ensures !Unmarks(run, acts, k, ev)
    {
      assert !Unmarking(run, acts, ev)(k);
    }
  }

  /** Between two feeds of ev it was sent again. */
  lemma SentBetweenFeeds(run: seq<State>, acts: seq<Act>, count: Count, i: nat, j: nat, ev: Event) returns (m: nat)
    requires IsTrace(run, acts, count) && i < j && Feeds(run, acts, i, ev) && Feeds(run, acts, j, ev)
    ensures m < j && Marks(run, acts, m, ev)
    ensures exists c: nat :: c < i && Unmarks(run, acts, c, ev) && (forall k :: c < k < i ==> !acts[k].Looped?) && c < m
  {
    var m1, c1 := FedWasSent(run, acts, count, i, ev);
    var c2;
    m, c2 := FedWasSent(run, acts, count, j, ev);
    assert c1 < i <= c2;
    assert m != c1 by { MarksMeans(run, acts, m, ev); }
  }

  // ---------- Flags ----------

  /** Step k raises the flag of a kind; step k of pipecb lowers it. */
  ghost function FlagRaised(run: seq<State>, acts: seq<Act>, kind: Kind): Steps {
    (k: nat) => exists t :: SenderStep(run, acts, k, t, SetFlag) && run[k].senders[t].ev.kind == kind
  }

  ghost function FlagLowered(run: seq<State>, acts: seq<Act>, kind: Kind): Steps {
    (k: nat) => LoopAt(run, acts, k, ClearFlag(kind))
  }

  lemma FlagStep(run: seq<State>, acts: seq<Act>, count: Count, k: nat, kind: Kind)
    requires IsTrace(run, acts, count) && k < |acts|
    ensures kind in run[k + 1].flags <==>
      FlagRaised(run, acts, kind)(k) || (kind in run[k].flags && !FlagLowered(run, acts, kind)(k))
  {
    TraceStep(run, acts, count, k);
    var s := run[k];
    match acts[k]
    case Spawned(t, e) =>
    case Moved(t) =>
      SenderFlags(s, t);
      if s.senders[t].pc == SetFlag { assert SenderStep(run, acts, k, t, SetFlag); }
    case Looped(c) => LoopFlags(s, c, kind, count);
  }

  lemma SenderFlags(s: State, t: nat)
    requires t in s.senders
    ensures var x := s.senders[t];
      AfterSender(s, t).flags == (if x.pc == SetFlag then s.flags + {x.ev.kind} else s.flags)
  {
    match s.senders[t].pc
    case Mark =>
    case ReadFlag =>
    case SetFlag =>
    case SetSkipped =>
    case ReadWanted =>
    case UnsetSkipped =>
    case WritePipe =>
    case Returned =>
  }

  lemma LoopFlags(s: State, c: Choice, kind: Kind, count: Count)
    requires Allowed(s, c)
    ensures kind in AfterLoop(s, c, count).flags <==> kind in s.flags && s.loop != ClearFlag(kind)
  {
    if InPass(s.loop) {
      match s.loop
      case ClearSkipped =>
      case TestFlag(k) =>
      case ClearFlag(k) =>
      case Scan(k, i) =>
      case ClearSent(k, i) =>
      case Feed(k, i) =>
    } else {
      PollFrame(s, c);
    }
  }

  /** A sender leaves early exactly if the flag of its kind has been raised and pipecb has not lowered it since. */
  lemma LeavesEarlyExactly(run: seq<State>, acts: seq<Act>, count: Count, j: nat, t: nat)
    requires IsTrace(run, acts, count) && SenderStep(run, acts, j, t, ReadFlag)
    ensures SenderAt(run[j + 1].senders, t, {Returned, SetFlag})
    ensures var kind := run[j].senders[t].ev.kind;
      SenderAt(run[j + 1].senders, t, {Returned}) <==>
        Since(FlagRaised(run, acts, kind), FlagLowered(run, acts, kind), j)
  {
    var kind := run[j].senders[t].ev.kind;
    var b: Steps := (k: nat) => k < |run| && kind in run[k].flags;
    forall k | 0 <= k < j
      ensures b(k + 1) == (FlagRaised(run, acts, kind)(k) || (b(k) && !FlagLowered(run, acts, kind)(k)))
    {
      FlagStep(run, acts, count, k, kind);
    }
    SinceExactly(b, FlagRaised(run, acts, kind), FlagLowered(run, acts, kind), j);
    TraceStep(run, acts, count, j);
  }

  // ---------- Skips, sleep and writes ----------

  /** Step k announces a skip; step k takes it back, or pipecb does. */
  ghost function Skipping(run: seq<State>, acts: seq<Act>): Steps {
    (k: nat) => AnySender(run, acts, k, SetSkipped)
  }

  ghost function Unskipping(run: seq<State>, acts: seq<Act>): Steps {
    (k: nat) => AnySender(run, acts, k, UnsetSkipped) || LoopAt(run, acts, k, ClearSkipped)
  }

  lemma AnySenderMeans(run: seq<State>, acts: seq<Act>, k: nat, t: nat, pc: SenderPc)
    requires k < |acts| && k < |run| && acts[k] == Moved(t)
    ensures AnySender(run, acts, k, pc) <==> SenderAt(run[k].senders, t, {pc})
  {
    assert SenderAt(run[k].senders, t, {pc}) ==> SenderStep(run, acts, k, t, pc);
  }

  lemma SkippedStep(run: seq<State>, acts: seq<Act>, count: Count, k: nat)
    requires IsTrace(run, acts, count) && k < |acts|
    ensures run[k + 1].skipped == (Skipping(run, acts)(k) || (run[k].skipped && !Unskipping(run, acts)(k)))
  {
    TraceStep(run, acts, count, k);
    var s := run[k];
    match acts[k]
    case Spawned(t, e) =>
    case Moved(t) =>
      SenderSkips(s, t);
      AnySenderMeans(run, acts, k, t, SetSkipped);
      AnySenderMeans(run, acts, k, t, UnsetSkipped);
    case Looped(c) => LoopSkips(s, c, count);
  }

  lemma SenderSkips(s: State, t: nat)
    requires t in s.senders
    ensures AfterSender(s, t).skipped ==
      (s.senders[t].pc == SetSkipped || (s.skipped && s.senders[t].pc != UnsetSkipped))
  {
    match s.senders[t].pc
    case Mark =>
    case ReadFlag =>
    case SetFlag =>
    case SetSkipped =>
    case ReadWanted =>
    case UnsetSkipped =>
    case WritePipe =>
    case Returned =>
  }

  lemma LoopSkips(s: State, c: Choice, count: Count)
    requires Allowed(s, c)
    ensures AfterLoop(s, c, count).skipped == (s.skipped && s.loop != ClearSkipped)
  {
    if InPass(s.loop) {
      match s.loop
      case ClearSkipped =>
      case TestFlag(k) =>
      case ClearFlag(k) =>
      case Scan(k, i) =>
      case ClearSent(k, i) =>
      case Feed(k, i) =>
    } else {
      PollFrame(s, c);
    }
  }

  lemma SkippedExactly(run: seq<State>, acts: seq<Act>, count: Count, j: nat)
    requires IsTrace(run, acts, count) && j < |run|
    ensures run[j].skipped <==> Since(Skipping(run, acts), Unskipping(run, acts), j)
  {
    var b: Steps := (k: nat) => k < |run| && run[k].skipped;
    forall k | 0 <= k < j
      ensures b(k + 1) == (Skipping(run, acts)(k) || (b(k) && !Unskipping(run, acts)(k)))
    {
      SkippedStep(run, acts, count, k);
    }
    SinceExactly(b, Skipping(run, acts), Unskipping(run, acts), j);
  }

  /** The loop goes to sleep exactly if it may and no sender has announced a skip that nobody has taken back. */
  lemma SleepsExactly(run: seq<State>, acts: seq<Act>, count: Count, k: nat)
    requires IsTrace(run, acts, count) && LoopAt(run, acts, k, CheckSkipped)
    ensures run[k + 1].loop.Poll?
    ensures run[k + 1].loop.block <==> !acts[k].c.noWait && !Since(Skipping(run, acts), Unskipping(run, acts), k)
  {
    TraceStep(run, acts, count, k);
    SkippedExactly(run, acts, count, k);
  }

  /** Step k of sender t finds that the loop wants to be woken. */
  ghost function FindsWanted(run: seq<State>, acts: seq<Act>, t: nat): Steps {
    (k: nat) => SenderStep(run, acts, k, t, ReadWanted) &&
      (run[k].loop in {CheckSkipped, ClearWanted} || run[k].loop.Poll?)
  }

  ghost function Writes(run: seq<State>, acts: seq<Act>, t: nat): Steps {
    (k: nat) => SenderStep(run, acts, k, t, WritePipe)
  }

  lemma WriterAfter(run: seq<State>, acts: seq<Act>, count: Count, k: nat, t: nat)
    requires IsTrace(run, acts, count) && k < |acts|
    ensures Writer(run[k + 1], t) == (FindsWanted(run, acts, t)(k) || (Writer(run[k], t) && !Writes(run, acts, t)(k)))
  {
    TraceStep(run, acts, count, k);
    var s := run[k];
    match acts[k]
    case Spawned(u, e) =>
    case Moved(u) =>
      if u == t {
        BecomesWriter(s, t);
      } else if t in s.senders {
        OthersStay(s, u, t);
      } else {
        NoNewSender(s, u);
      }
    case Looped(c) => LoopKeepsSkip(s, c, Event(Sig, 0), count);
  }

  lemma BecomesWriter(s: State, t: nat)
    requires t in s.senders
    ensures Writer(AfterSender(s, t), t) ==
      ((s.senders[t].pc == ReadWanted && s.wanted) || s.senders[t].pc == UnsetSkipped)
  {
    match s.senders[t].pc
    case Mark =>
    case ReadFlag =>
    case SetFlag =>
    case SetSkipped =>
    case ReadWanted =>
    case UnsetSkipped =>
    case WritePipe =>
    case Returned =>
  }

  lemma NoNewSender(s: State, u: nat)
    requires u in s.senders
    ensures AfterSender(s, u).senders.Keys == s.senders.Keys
  {
    match s.senders[u].pc
    case Mark =>
    case ReadFlag =>
    case SetFlag =>
    case SetSkipped =>
    case ReadWanted =>
    case UnsetSkipped =>
    case WritePipe =>
    case Returned =>
  }

  /** A sender is about to write exactly if it has found the loop in its poll section and has not written since. */
  lemma WritesExactly(run: seq<State>, acts: seq<Act>, count: Count, j: nat, t: nat)
    requires IsTrace(run, acts, count) && j < |run|
    ensures Writer(run[j], t) <==> Since(FindsWanted(run, acts, t), Writes(run, acts, t), j)
  {
    var b: Steps := (k: nat) => k < |run| && Writer(run[k], t);
    forall k | 0 <= k < j
      ensures b(k + 1) == (FindsWanted(run, acts, t)(k) || (b(k) && !Writes(run, acts, t)(k)))
    {
      WriterAfter(run, acts, count, k, t);
    }
    SinceExactly(b, FindsWanted(run, acts, t), Writes(run, acts, t), j);
  }

  // ---------- Why pipecb runs ----------

  /** Poll reports the pipe, or the loop sees a skip after poll. */
  ghost function Asks(run: seq<State>, acts: seq<Act>): Steps {
    (k: nat) => k < |acts| && k < |run| && acts[k].Looped? &&
      ((run[k].loop.Poll? && acts[k].c.ready) || (run[k].loop == RecheckSkipped && run[k].skipped))
  }

  ghost function Dispatches(run: seq<State>, acts: seq<Act>): Steps {
    (k: nat) => LoopAt(run, acts, k, Dispatch)
  }

  lemma FedStep(run: seq<State>, acts: seq<Act>, count: Count, k: nat)
    requires IsTrace(run, acts, count) && k < |acts|
    ensures run[k + 1].fed == (Asks(run, acts)(k) || (run[k].fed && !Dispatches(run, acts)(k)))
  {
    TraceStep(run, acts, count, k);
    match acts[k]
    case Spawned(t, e) =>
    case Moved(t) => SenderFrame(run[k], t);
    case Looped(c) => LoopFeeds(run[k], c, count);
  }

  lemma LoopFeeds(s: State, c: Choice, count: Count)
    requires Allowed(s, c) && LoopBooks(s)
    ensures AfterLoop(s, c, count).fed ==
      ((s.loop.Poll? && c.ready) || (s.loop == RecheckSkipped && s.skipped) || (s.fed && s.loop != Dispatch))
  {
    match s.loop
    case Ahead =>
    case CheckSkipped =>
    case Poll(_) =>
    case ClearWanted =>
    case RecheckSkipped =>
    case Dispatch =>
    case ReadPipe =>
    case ClearSkipped =>
    case TestFlag(k) =>
    case ClearFlag(k) =>
    case Scan(k, i) =>
    case ClearSent(k, i) =>
    case Feed(k, i) =>
  }

  /** pipecb runs exactly if, since the last dispatch, poll has reported the pipe or the loop has seen a skip. */
  lemma CallbackExactly(run: seq<State>, acts: seq<Act>, count: Count, j: nat)
    requires IsTrace(run, acts, count) && LoopAt(run, acts, j, Dispatch)
    ensures run[j + 1].loop in {ReadPipe, ClearSkipped} <==> Since(Asks(run, acts), Dispatches(run, acts), j)
    ensures run[j + 1].loop !in {ReadPipe, ClearSkipped} ==> run[j + 1].loop == Ahead
  {
    var b: Steps := (k: nat) => k < |run| && run[k].fed;
    forall k | 0 <= k < j
      ensures b(k + 1) == (Asks(run, acts)(k) || (b(k) && !Dispatches(run, acts)(k)))
    {
      FedStep(run, acts, count, k);
    }
    SinceExactly(b, Asks(run, acts), Dispatches(run, acts), j);
    TraceStep(run, acts, count, j);
  }

  /** Poll reports the pipe readable. */
  ghost function Reports(run: seq<State>, acts: seq<Act>): Steps {
    (k: nat) => k < |acts| && k < |run| && acts[k].Looped? && run[k].loop.Poll? && acts[k].c.ready
  }

  /** Between poll and dispatch, with the pipe reported. */
  ghost predicate Reported(s: State) {
    s.readable && s.loop in {ClearWanted, RecheckSkipped, Dispatch}
  }

  lemma ReportStep(run: seq<State>, acts: seq<Act>, count: Count, k: nat)
    requires IsTrace(run, acts, count) && k < |acts|
    ensures Reported(run[k + 1]) == (Reports(run, acts)(k) || (Reported(run[k]) && !Dispatches(run, acts)(k)))
  {
    TraceStep(run, acts, count, k);
    match acts[k]
    case Spawned(t, e) =>
    case Moved(t) => SenderFrame(run[k], t);
    case Looped(c) => LoopReports(run[k], c, count);
  }

  lemma LoopReports(s: State, c: Choice, count: Count)
    requires Allowed(s, c)
    ensures Reported(AfterLoop(s, c, count)) ==
      ((s.loop.Poll? && c.ready) || (Reported(s) && s.loop != Dispatch))
  {
    match s.loop
    case Ahead =>
    case CheckSkipped =>
    case Poll(_) =>
    case ClearWanted =>
    case RecheckSkipped =>
    case Dispatch =>
    case ReadPipe =>
    case ClearSkipped =>
    case TestFlag(k) =>
    case ClearFlag(k) =>
    case Scan(k, i) =>
    case ClearSent(k, i) =>
    case Feed(k, i) =>
  }

  /** pipecb reads the pipe exactly if poll has reported it since the last dispatch. */
  lemma ReadsExactly(run: seq<State>, acts: seq<Act>, count: Count, j: nat)
    requires IsTrace(run, acts, count) && LoopAt(run, acts, j, Dispatch)
    ensures run[j + 1].loop == ReadPipe <==> Since(Reports(run, acts), Dispatches(run, acts), j)
  {
    var b: Steps := (k: nat) => k < |run| && Reported(run[k]);
    forall k | 0 <= k < j
      ensures b(k + 1) == (Reports(run, acts)(k) || (b(k) && !Dispatches(run, acts)(k)))
    {
      ReportStep(run, acts, count, k);
    }
    SinceExactly(b, Reports(run, acts), Dispatches(run, acts), j);
    TraceStep(run, acts, count, j);
    CallbackExactly(run, acts, count, j);
    if Since(Reports(run, acts), Dispatches(run, acts), j) {
      var k: nat :| LastOn(Reports(run, acts), Dispatches(run, acts), k, j);
      assert LastOn(Asks(run, acts), Dispatches(run, acts), k, j);
    }
  }

  // ---------- The pipe ----------

  /** Bytes written, and bytes read, by the steps before j. */
  ghost function Written(run: seq<State>, acts: seq<Act>, j: nat): nat {
    if j == 0 then 0 else Written(run, acts, j - 1) + (if AnySender(run, acts, j - 1, WritePipe) then 1 else 0)
  }

  ghost function Read(run: seq<State>, acts: seq<Act>, j: nat): nat {
    if j == 0 then 0 else Read(run, acts, j - 1) + Taken(run, acts, j - 1)
  }

  /** Bytes read by step k. */
  ghost function Taken(run: seq<State>, acts: seq<Act>, k: nat): nat {
    if LoopAt(run, acts, k, ReadPipe) then acts[k].c.take else 0
  }

  lemma BytesStep(run: seq<State>, acts: seq<Act>, count: Count, k: nat)
    requires IsTrace(run, acts, count) && k < |acts|
    ensures run[k + 1].bytes + Taken(run, acts, k) ==
      run[k].bytes + (if AnySender(run, acts, k, WritePipe) then 1 else 0)
  {
    TraceStep(run, acts, count, k);
    var s := run[k];
    match acts[k]
    case Spawned(t, e) =>
    case Moved(t) =>
      AnySenderMeans(run, acts, k, t, WritePipe);
      SenderBytes(s, t);
    case Looped(c) => LoopBytes(s, c, count);
  }

  lemma SenderBytes(s: State, t: nat)
    requires t in s.senders
    ensures AfterSender(s, t).bytes == s.bytes + (if s.senders[t].pc == WritePipe then 1 else 0)
  {
    match s.senders[t].pc
    case Mark =>
    case ReadFlag =>
    case SetFlag =>
    case SetSkipped =>
    case ReadWanted =>
    case UnsetSkipped =>
    case WritePipe =>
    case Returned =>
  }

  lemma LoopBytes(s: State, c: Choice, count: Count)
    requires Allowed(s, c)
    ensures AfterLoop(s, c, count).bytes + (if s.loop == ReadPipe then c.take else 0) == s.bytes
  {
    match s.loop
    case Ahead =>
    case CheckSkipped =>
    case Poll(_) =>
    case ClearWanted =>
    case RecheckSkipped =>
    case Dispatch =>
    case ReadPipe =>
    case ClearSkipped =>
    case TestFlag(k) =>
    case ClearFlag(k) =>
    case Scan(k, i) =>
    case ClearSent(k, i) =>
    case Feed(k, i) =>
  }

  /** What was written is in the pipe or has been read. */
  lemma {:induction false} BytesExactly(run: seq<State>, acts: seq<Act>, count: Count, j: nat)
    requires IsTrace(run, acts, count) && j < |run|
    ensures run[j].bytes + Read(run, acts, j) == Written(run, acts, j)
  {
    if j > 0 {
      var k := j - 1;
      BytesExactly(run, acts, count, k);
      BytesStep(run, acts, count, k);
      ReadStep(run, acts, k);
    }
  }

  lemma ReadStep(run: seq<State>, acts: seq<Act>, k: nat)
    ensures Read(run, acts, k + 1) == Read(run, acts, k) + Taken(run, acts, k)
    ensures Written(run, acts, k + 1) == Written(run, acts, k) + (if AnySender(run, acts, k, WritePipe) then 1 else 0)
  {
  }
}
