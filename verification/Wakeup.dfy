/**
 The wakeup protocol between the event loop and any number of senders: ev_async_send,
 ev_feed_signal and evpipe_write on one side; the poll section of ev_run and pipecb on
 the other. Every step makes one access to the shared variables; fences make the order
 of each party's accesses the program order.
 */
module Wakeup {

  datatype Kind = Sig | Async

  /** A signal number or an async watcher: what is marked when something is sent. */
  datatype Event = Event(kind: Kind, id: nat)

  datatype SenderPc =
    | Mark          // the watcher or signal is marked
    | ReadFlag      // is the flag of its kind up already?
    | SetFlag       // it is raised
    | SetSkipped    // a skipped write is announced
    | ReadWanted    // does the loop want a write?
    | UnsetSkipped  // the announcement is taken back
    | WritePipe     // a byte goes into the pipe
    | Returned

  datatype Sender = Sender(pc: SenderPc, ev: Event)

  datatype LoopPc =
    | Ahead                         // before pipe_write_wanted = 1
    | CheckSkipped                  // wanted is up; about to read pipe_write_skipped
    | Poll(block: bool)
    | ClearWanted
    | RecheckSkipped
    | Dispatch                      // invoke pending, pipecb among them if it was fed
    | ReadPipe                      // pipecb: the read
    | ClearSkipped
    | TestFlag(kind: Kind)          // is the flag of this kind up?
    | ClearFlag(kind: Kind)
    | Scan(kind: Kind, i: nat)      // watchers i-1, ..., 0 are still to be looked at
    | ClearSent(kind: Kind, i: nat) // watcher i was marked
    | Feed(kind: Kind, i: nat)      // its mark is gone, ev_feed_event comes next

  datatype State = State(
    sent: set<Event>,             // the marks
    flags: set<Kind>,             // sig_pending, async_pending
    skipped: bool,
    wanted: bool,
    bytes: nat,                   // in the pipe, or the eventfd counter
    loop: LoopPc,
    readable: bool,               // pipe_w was fed EV_READ
    fed: bool,                    // pipe_w is pending
    senders: map<nat, Sender>,
    owed: set<Event>              // sent since last fed (not part of the program)
  )

  /** How many watchers there are of each kind; their ids lie below that. */
  datatype Count = Count(sig: nat, async: nat) {
    function Of(k: Kind): nat {
      if k == Sig then sig else async
    }
  }

  ghost predicate Init(s: State) {
    s.sent == {} && s.flags == {} && !s.skipped && !s.wanted && s.loop == Ahead && !s.fed && !s.readable
    && s.senders == map[] && s.owed == {} && s.bytes == 0
  }

  /** Someone calls ev_async_send or a signal arrives. */
  ghost predicate Spawn(s: State, s': State, t: nat, ev: Event, count: Count) {
    t !in s.senders && ev.id < count.Of(ev.kind) && s' == s.(senders := s.senders[t := Sender(Mark, ev)])
  }

  function AfterSender(s: State, t: nat): State
    requires t in s.senders
  {
    var ev := s.senders[t].ev;
    match s.senders[t].pc
    case Mark => s.(sent := s.sent + {ev}, owed := s.owed + {ev}, senders := s.senders[t := Sender(ReadFlag, ev)])
    case ReadFlag => s.(senders := s.senders[t := Sender(if ev.kind in s.flags then Returned else SetFlag, ev)])
    case SetFlag => s.(flags := s.flags + {ev.kind}, senders := s.senders[t := Sender(SetSkipped, ev)])
    case SetSkipped => s.(skipped := true, senders := s.senders[t := Sender(ReadWanted, ev)])
    case ReadWanted => s.(senders := s.senders[t := Sender(if s.wanted then UnsetSkipped else Returned, ev)])
    case UnsetSkipped => s.(skipped := false, senders := s.senders[t := Sender(WritePipe, ev)])
    case WritePipe => s.(bytes := s.bytes + 1, senders := s.senders[t := Sender(Returned, ev)])
    case Returned => s
  }

  /** What the environment decides for the loop. */
  datatype Choice = Choice(
    noWait: bool,       // EVRUN_NOWAIT, idle watchers or nothing active
    ready: bool,        // poll reports the pipe readable
    take: nat)          // bytes the read takes

  /** Whether a choice is possible in a state: poll reports only what is there, a blocked poll
      may also end without the pipe (timer, other descriptor, signal), a read takes 1 to 4 bytes
      or, from an eventfd, everything. */
  predicate Allowed(s: State, c: Choice) {
    && (s.loop.Poll? && c.ready ==> s.bytes > 0)
    && (s.loop == ReadPipe && s.bytes > 0 ==> 0 < c.take <= s.bytes)
    && (s.loop == ReadPipe && s.bytes == 0 ==> c.take == 0)
  }

  /** pipecb after its read. */
  predicate InPass(l: LoopPc) {
    l.ClearSkipped? || l.TestFlag? || l.ClearFlag? || l.Scan? || l.ClearSent? || l.Feed?
  }

  function AfterLoop(s: State, c: Choice, count: Count): State
    requires Allowed(s, c)
  {
    if InPass(s.loop) then AfterPass(s, count) else AfterPoll(s, c)
  }

  /** The poll section of ev_run, up to the read of the pipe. */
  function AfterPoll(s: State, c: Choice): State
    requires !InPass(s.loop) && Allowed(s, c)
  {
    match s.loop
    case Ahead => s.(wanted := true, loop := CheckSkipped)
    case CheckSkipped => s.(loop := Poll(!c.noWait && !s.skipped))
    case Poll(_) => s.(readable := c.ready, fed := s.fed || c.ready, loop := ClearWanted)
    case ClearWanted => s.(wanted := false, loop := RecheckSkipped)
    case RecheckSkipped => s.(fed := s.fed || s.skipped, loop := Dispatch)
    case Dispatch =>
      if s.fed then s.(fed := false, loop := if s.readable then ReadPipe else ClearSkipped) else s.(loop := Ahead)
    case ReadPipe => s.(bytes := s.bytes - c.take, readable := false, loop := ClearSkipped)
  }

  function AfterPass(s: State, count: Count): State
    requires InPass(s.loop)
  {
    match s.loop
    case ClearSkipped => s.(skipped := false, loop := TestFlag(Sig))
    case TestFlag(k) => s.(loop := if k in s.flags then ClearFlag(k) else AfterKind(k))
    case ClearFlag(k) => s.(flags := s.flags - {k}, loop := Scan(k, count.Of(k)))
    case Scan(k, i) =>
      if i == 0 then s.(loop := AfterKind(k))
      else s.(loop := if Event(k, i - 1) in s.sent then ClearSent(k, i - 1) else Scan(k, i - 1))
    case ClearSent(k, i) => s.(sent := s.sent - {Event(k, i)}, loop := Feed(k, i))
    case Feed(k, i) => s.(owed := s.owed - {Event(k, i)}, loop := Scan(k, i))
  }

  function AfterKind(k: Kind): LoopPc {
    if k == Sig then TestFlag(Async) else Ahead
  }

  ghost predicate Next(s: State, s': State, count: Count) {
    || (exists t, ev :: Spawn(s, s', t, ev, count))
    || (exists t :: t in s.senders && s' == AfterSender(s, t))
    || (exists c :: Allowed(s, c) && s' == AfterLoop(s, c, count))
  }

  // ---------- What every step keeps ----------

  type Senders = map<nat, Sender>

  ghost predicate SenderAt(m: Senders, t: nat, pcs: set<SenderPc>) {
    t in m && m[t].pc in pcs
  }

  /** Some sender of kind k is between its mark and the flag. */
  ghost predicate Raising(m: Senders, k: Kind) {
    exists t :: SenderAt(m, t, {ReadFlag, SetFlag}) && m[t].ev.kind == k
  }

  /** Some sender has raised the flag and has not yet left its wakeup behind. */
  ghost predicate Waking(m: Senders) {
    exists t :: SenderAt(m, t, {SetSkipped, UnsetSkipped, WritePipe})
  }

  /** Some sender has announced a skip and has not yet acted on what it reads in pipe_write_wanted. */
  ghost predicate Deciding(m: Senders) {
    exists t :: SenderAt(m, t, {ReadWanted, UnsetSkipped, WritePipe})
  }

  /** The loop is inside pipecb and has still to test flag k. */
  predicate WillTest(l: LoopPc, k: Kind) {
    match l
    case ClearSkipped => true
    case TestFlag(j) => j == k || (j == Sig && k == Async)
    case ClearFlag(j) => j == k || (j == Sig && k == Async)
    case Scan(j, _) => j == Sig && k == Async
    case ClearSent(j, _) => j == Sig && k == Async
    case Feed(j, _) => j == Sig && k == Async
    case _ => false
  }

  /** The loop has cleared the flag of ev and is still to look at its mark. */
  predicate WillScan(l: LoopPc, ev: Event) {
    match l
    case Scan(k, i) => k == ev.kind && ev.id < i
    case ClearSent(k, i) => k == ev.kind && ev.id <= i
    case Feed(k, i) => k == ev.kind && ev.id < i
    case _ => false
  }

  /** What is owed is marked, or the loop is just feeding it. */
  ghost predicate OwedIsMarked(s: State) {
    forall ev :: ev in s.owed ==> ev in s.sent || s.loop == Feed(ev.kind, ev.id)
  }

  /** Its flag is up, or someone will raise it, or the loop is on its way to the mark. */
  ghost predicate Announced(s: State, e: Event, count: Count) {
    e.id < count.Of(e.kind) && (e.kind in s.flags || Raising(s.senders, e.kind) || WillScan(s.loop, e))
  }

  ghost predicate MarkIsAnnounced(s: State, count: Count) {
    forall ev :: ev in s.sent ==> Announced(s, ev, count)
  }

  /** A raised flag leaves a token: skipped, a byte, a sender about to leave one, or the loop about to test it. */
  ghost predicate FlagHasToken(s: State) {
    forall k :: k in s.flags ==> s.skipped || s.bytes > 0 || Waking(s.senders) || WillTest(s.loop, k)
  }

  /** Skips that a blocked loop has not seen are about to become bytes. */
  ghost predicate SkipIsSeen(s: State) {
    s.loop == Poll(true) && s.skipped ==> s.bytes > 0 || Deciding(s.senders)
  }

  ghost predicate LoopBooks(s: State) {
    && (s.wanted <==> s.loop in {CheckSkipped, ClearWanted} || s.loop.Poll?)
    && (s.loop == ReadPipe ==> s.readable)
    && (s.fed ==> s.loop in {ClearWanted, RecheckSkipped, Dispatch})
  }

  ghost predicate KnownEvents(m: Senders, count: Count) {
    forall t :: t in m ==> m[t].ev.id < count.Of(m[t].ev.kind)
  }

  /** Scans stay within the watchers there are. */
  ghost predicate InRange(s: State, count: Count) {
    match s.loop
    case Scan(k, i) => i <= count.Of(k)
    case ClearSent(k, i) => i < count.Of(k)
    case Feed(k, i) => i < count.Of(k)
    case _ => true
  }

  /** The loop takes away only marks that are there. */
  ghost predicate FoundMarked(s: State) {
    forall k, i :: s.loop == ClearSent(k, i) ==> Event(k, i) in s.sent
  }

  ghost predicate Inv(s: State, count: Count) {
    && FoundMarked(s)
    && InRange(s, count) && KnownEvents(s.senders, count)
    && OwedIsMarked(s) && MarkIsAnnounced(s, count) && FlagHasToken(s) && SkipIsSeen(s) && LoopBooks(s)
  }

  lemma InvInit(s: State, count: Count)
    requires Init(s)
    ensures Inv(s, count)
  {
  }

  // ---------- Moving one sender ----------

  lemma RaisingKept(m: Senders, t: nat, x: Sender, k: Kind)
    requires Raising(m, k)
    requires t in m && m[t].pc in {ReadFlag, SetFlag} && m[t].ev.kind == k ==>
      x.pc in {ReadFlag, SetFlag} && x.ev.kind == k
    ensures Raising(m[t := x], k)
  {
    var u :| SenderAt(m, u, {ReadFlag, SetFlag}) && m[u].ev.kind == k;
    assert SenderAt(m[t := x], u, {ReadFlag, SetFlag});
  }

  lemma WakingKept(m: Senders, t: nat, x: Sender)
    requires Waking(m)
    requires t in m && m[t].pc in {SetSkipped, UnsetSkipped, WritePipe} ==>
      x.pc in {SetSkipped, UnsetSkipped, WritePipe}
    ensures Waking(m[t := x])
  {
    var u :| SenderAt(m, u, {SetSkipped, UnsetSkipped, WritePipe});
    assert SenderAt(m[t := x], u, {SetSkipped, UnsetSkipped, WritePipe});
  }

  lemma DecidingKept(m: Senders, t: nat, x: Sender)
    requires Deciding(m)
    requires t in m && m[t].pc in {ReadWanted, UnsetSkipped, WritePipe} ==>
      x.pc in {ReadWanted, UnsetSkipped, WritePipe}
    ensures Deciding(m[t := x])
  {
    var u :| SenderAt(m, u, {ReadWanted, UnsetSkipped, WritePipe});
    assert SenderAt(m[t := x], u, {ReadWanted, UnsetSkipped, WritePipe});
  }

  lemma InvSpawn(s: State, s': State, t: nat, ev: Event, count: Count)
    requires Inv(s, count) && Spawn(s, s', t, ev, count)
    ensures Inv(s', count)
  {
    var x := Sender(Mark, ev);
    forall k | Raising(s.senders, k)
      ensures Raising(s'.senders, k)
    {
      RaisingKept(s.senders, t, x, k);
    }
    if Waking(s.senders) { WakingKept(s.senders, t, x); }
    if Deciding(s.senders) { DecidingKept(s.senders, t, x); }
  }

  lemma MarkStaysAnnounced(s: State, t: nat, e: Event, count: Count)
    requires Announced(s, e, count) && t in s.senders
    ensures Announced(AfterSender(s, t), e, count)
  {
    var s', x := AfterSender(s, t), s.senders[t];
    match x.pc {
      case Mark =>
      case ReadFlag =>
      case SetFlag =>
      case SetSkipped =>
      case ReadWanted =>
      case UnsetSkipped =>
      case WritePipe =>
      case Returned =>
    }
    if e.kind !in s'.flags && !WillScan(s.loop, e) && x.pc != Returned {
      RaisingKept(s.senders, t, s'.senders[t], e.kind);
    }
  }

  lemma MarksStayAnnounced(s: State, t: nat, count: Count)
    requires KnownEvents(s.senders, count) && MarkIsAnnounced(s, count) && t in s.senders
    ensures MarkIsAnnounced(AfterSender(s, t), count)
  {
    var s', x := AfterSender(s, t), s.senders[t];
    forall e | e in s'.sent
      ensures Announced(s', e, count)
    {
      if e in s.sent {
        MarkStaysAnnounced(s, t, e, count);
      } else {
        assert SenderAt(s'.senders, t, {ReadFlag, SetFlag});
      }
    }
  }

  lemma TokensStay(s: State, t: nat, count: Count)
    requires Inv(s, count) && t in s.senders
    ensures FlagHasToken(AfterSender(s, t))
  {
    var s', x := AfterSender(s, t), s.senders[t];
    if x.pc == SetFlag { assert SenderAt(s'.senders, t, {SetSkipped, UnsetSkipped, WritePipe}); }
    if x.pc == UnsetSkipped { assert SenderAt(s'.senders, t, {SetSkipped, UnsetSkipped, WritePipe}); }
    if Waking(s.senders) && x.pc !in {SetSkipped, WritePipe, Returned} { WakingKept(s.senders, t, s'.senders[t]); }
  }

  lemma SkipsStaySeen(s: State, t: nat, count: Count)
    requires Inv(s, count) && t in s.senders
    ensures SkipIsSeen(AfterSender(s, t))
  {
    var s', x := AfterSender(s, t), s.senders[t];
    if x.pc == SetSkipped { assert SenderAt(s'.senders, t, {ReadWanted, UnsetSkipped, WritePipe}); }
    if s.loop == Poll(true) && Deciding(s.senders) && x.pc !in {WritePipe, Returned} {
      DecidingKept(s.senders, t, s'.senders[t]);
    }
  }

  lemma InvSender(s: State, t: nat, count: Count)
    requires Inv(s, count) && t in s.senders
    ensures Inv(AfterSender(s, t), count)
  {
    MarksStayAnnounced(s, t, count);
    TokensStay(s, t, count);
    SkipsStaySeen(s, t, count);
    SenderKeepsEvents(s, t, count);
    SenderKeepsOwed(s, t);
    SenderKeepsLoop(s, t);
  }

  lemma SenderKeepsEvents(s: State, t: nat, count: Count)
    requires KnownEvents(s.senders, count) && t in s.senders
    ensures KnownEvents(AfterSender(s, t).senders, count)
  {
    match s.senders[t].pc
    case Mark =>
    case ReadFlag =>
    case SetFlag =>
    case SetSkipped =>
    case ReadWanted =>
    case UnsetSkipped =>
    case WritePipe =>
    case Returned =>
  }

  lemma SenderKeepsOwed(s: State, t: nat)
    requires OwedIsMarked(s) && FoundMarked(s) && t in s.senders
    ensures OwedIsMarked(AfterSender(s, t)) && FoundMarked(AfterSender(s, t))
  {
  }

  lemma SenderKeepsLoop(s: State, t: nat)
    requires LoopBooks(s) && t in s.senders
    ensures LoopBooks(AfterSender(s, t)) && AfterSender(s, t).loop == s.loop
  {
  }

  // ---------- Moving the loop ----------

  lemma InvLoop(s: State, c: Choice, count: Count)
    requires Inv(s, count) && Allowed(s, c)
    ensures Inv(AfterLoop(s, c, count), count)
  {
    if InPass(s.loop) { InvPass(s, count); } else { InvPoll(s, c, count); }
  }

  /** The poll section leaves marks, flags, senders and debts alone; only a read takes bytes, and pipecb follows it. */
  lemma PollFrame(s: State, c: Choice)
    requires !InPass(s.loop) && Allowed(s, c)
    ensures var s' := AfterPoll(s, c);
      && s'.sent == s.sent && s'.flags == s.flags && s'.senders == s.senders && s'.owed == s.owed
      && s'.skipped == s.skipped
      && (s'.bytes == s.bytes || s'.loop == ClearSkipped)
      && !s'.loop.Scan? && !s'.loop.ClearSent? && !s'.loop.Feed? && !s'.loop.TestFlag? && !s'.loop.ClearFlag?
  {
    match s.loop
    case Ahead =>
    case CheckSkipped =>
    case Poll(_) =>
    case ClearWanted =>
    case RecheckSkipped =>
    case Dispatch =>
    case ReadPipe =>
  }

  lemma InvPoll(s: State, c: Choice, count: Count)
    requires Inv(s, count) && !InPass(s.loop) && Allowed(s, c)
    ensures Inv(AfterPoll(s, c), count)
  {
    PollFrame(s, c);
    PollKeepsBooks(s, c);
    var s' := AfterPoll(s, c);
    forall ev | ev in s'.sent
      ensures Announced(s', ev, count)
    {
      assert Announced(s, ev, count);
    }
  }

  lemma PollKeepsBooks(s: State, c: Choice)
    requires SkipIsSeen(s) && LoopBooks(s) && !InPass(s.loop) && Allowed(s, c)
    ensures SkipIsSeen(AfterPoll(s, c)) && LoopBooks(AfterPoll(s, c))
  {
  }

  lemma InvPass(s: State, count: Count)
    requires Inv(s, count) && InPass(s.loop)
    ensures Inv(AfterPass(s, count), count)
  {
    var s' := AfterPass(s, count);
    PassInRange(s, count);
    PassFindsMarks(s, count);
    PassKeepsBooks(s, count);
    PassKeepsTokens(s, count);
    forall ev | ev in s'.owed
      ensures ev in s'.sent || s'.loop == Feed(ev.kind, ev.id)
    {
      PassKeepsDebt(s, ev, count);
    }
    forall ev | ev in s'.sent
      ensures Announced(s', ev, count)
    {
      assert Announced(s, ev, count);
      PassKeepsMark(s, ev, count);
    }
  }

  lemma PassInRange(s: State, count: Count)
    requires InRange(s, count) && InPass(s.loop)
    ensures InRange(AfterPass(s, count), count)
  {
  }

  lemma PassFindsMarks(s: State, count: Count)
    requires InPass(s.loop)
    ensures FoundMarked(AfterPass(s, count))
  {
  }

  lemma PassKeepsBooks(s: State, count: Count)
    requires LoopBooks(s) && InPass(s.loop)
    ensures var s' := AfterPass(s, count);
      LoopBooks(s') && SkipIsSeen(s') && s'.senders == s.senders && s'.sent <= s.sent
  {
  }

  lemma PassKeepsTokens(s: State, count: Count)
    requires FlagHasToken(s) && InPass(s.loop)
    ensures FlagHasToken(AfterPass(s, count))
  {
  }

  lemma PassKeepsDebt(s: State, ev: Event, count: Count)
    requires InPass(s.loop) && (ev in s.sent || s.loop == Feed(ev.kind, ev.id)) && ev in AfterPass(s, count).owed
    ensures var s' := AfterPass(s, count); ev in s'.sent || s'.loop == Feed(ev.kind, ev.id)
  {
  }

  lemma PassKeepsMark(s: State, ev: Event, count: Count)
    requires InPass(s.loop) && Announced(s, ev, count) && ev in AfterPass(s, count).sent
    ensures Announced(AfterPass(s, count), ev, count)
  {
  }

  lemma InvNext(s: State, s': State, count: Count)
    requires Inv(s, count) && Next(s, s', count)
    ensures Inv(s', count)
  {
    if t, ev :| Spawn(s, s', t, ev, count) {
      InvSpawn(s, s', t, ev, count);
    } else if t :| t in s.senders && s' == AfterSender(s, t) {
      InvSender(s, t, count);
    } else {
      var c :| Allowed(s, c) && s' == AfterLoop(s, c, count);
      InvLoop(s, c, count);
    }
  }

  // ---------- Whole runs ----------

  ghost predicate IsRun(run: seq<State>, count: Count) {
    |run| > 0 && Init(run[0]) && forall i :: 0 <= i < |run| - 1 ==> Next(run[i], run[i + 1], count)
  }

  lemma {:induction false} RunKeepsInv(run: seq<State>, count: Count, i: nat)
    requires IsRun(run, count) && i < |run|
    ensures Inv(run[i], count)
  {
    if i == 0 {
      InvInit(run[0], count);
    } else {
      RunKeepsInv(run, count, i - 1);
      InvNext(run[i - 1], run[i], count);
    }
  }

  /** n steps of one sender. */
  function RunSender(s: State, t: nat, n: nat): (s': State)
    requires t in s.senders
    ensures t in s'.senders
    decreases n
  {
    if n == 0 then s else RunSender(AfterSender(s, t), t, n - 1)
  }

  /** Left to itself, the sender will put a byte into the pipe. */
  ghost predicate WillWrite(s: State, t: nat) {
    t in s.senders && exists n :: 0 < n <= 7 && RunSender(s, t, n).bytes > s.bytes
  }

  lemma WritesSoon(s: State, t: nat)
    requires t in s.senders && s.wanted
    requires s.senders[t].pc in {SetFlag, SetSkipped, ReadWanted, UnsetSkipped, WritePipe}
      || (s.senders[t].pc == ReadFlag && s.senders[t].ev.kind !in s.flags)
    ensures WillWrite(s, t)
  {
    match s.senders[t].pc
    case WritePipe => assert RunSender(s, t, 1).bytes > s.bytes;
    case UnsetSkipped => UnsetWrites(s, t);
    case ReadWanted => WantedWrites(s, t);
    case SetSkipped => SkippedWrites(s, t);
    case SetFlag => FlagWrites(s, t);
    case ReadFlag =>
      FlagWrites(AfterSender(s, t), t);
      assert RunSender(s, t, 6).bytes > s.bytes;
    case _ =>
  }

  lemma UnsetWrites(s: State, t: nat)
    requires t in s.senders && s.senders[t].pc == UnsetSkipped
    ensures RunSender(s, t, 2).bytes == s.bytes + 1
  {
    var s1 := AfterSender(s, t);
    assert RunSender(s1, t, 1) == AfterSender(s1, t);
  }

  lemma WantedWrites(s: State, t: nat)
    requires t in s.senders && s.wanted && s.senders[t].pc == ReadWanted
    ensures RunSender(s, t, 3).bytes == s.bytes + 1
  {
    UnsetWrites(AfterSender(s, t), t);
  }

  lemma SkippedWrites(s: State, t: nat)
    requires t in s.senders && s.wanted && s.senders[t].pc == SetSkipped
    ensures RunSender(s, t, 4).bytes == s.bytes + 1
  {
    WantedWrites(AfterSender(s, t), t);
  }

  lemma FlagWrites(s: State, t: nat)
    requires t in s.senders && s.wanted && s.senders[t].pc == SetFlag
    ensures RunSender(s, t, 5).bytes == s.bytes + 1
  {
    SkippedWrites(AfterSender(s, t), t);
  }

  /**
   No lost wakeup: in every state of every run, if the loop sleeps in poll on an empty pipe
   while something that was sent has not been fed, some sender is still in flight and will write.
   */
  lemma NoLostWakeup(run: seq<State>, count: Count, i: nat, ev: Event)
    requires IsRun(run, count) && i < |run|
    requires run[i].loop == Poll(true) && run[i].bytes == 0 && ev in run[i].owed
    ensures exists t :: WillWrite(run[i], t)
  {
    var s := run[i];
    RunKeepsInv(run, count, i);
    assert Announced(s, ev, count);
    var t := SleepersWaker(s, ev, count);
    WritesSoon(s, t);
  }

  lemma SleepersWaker(s: State, ev: Event, count: Count) returns (t: nat)
    requires Inv(s, count) && s.loop == Poll(true) && s.bytes == 0 && Announced(s, ev, count)
    ensures t in s.senders
    ensures s.senders[t].pc in {SetFlag, SetSkipped, ReadWanted, UnsetSkipped, WritePipe}
      || (s.senders[t].pc == ReadFlag && s.senders[t].ev.kind !in s.flags)
  {
    if ev.kind in s.flags {
      if s.skipped {
        t :| SenderAt(s.senders, t, {ReadWanted, UnsetSkipped, WritePipe});
      } else {
        t :| SenderAt(s.senders, t, {SetSkipped, UnsetSkipped, WritePipe});
      }
    } else {
      t :| SenderAt(s.senders, t, {ReadFlag, SetFlag}) && s.senders[t].ev.kind == ev.kind;
    }
  }

  ghost predicate Quiet(s: State) {
    forall t :: t in s.senders ==> s.senders[t].pc == Returned
  }

  /** Once all senders have returned, the loop never sleeps over something owed. */
  lemma NeverSleepsOverSend(run: seq<State>, count: Count, i: nat)
    requires IsRun(run, count) && i < |run| && Quiet(run[i])
    requires run[i].loop == Poll(true) && run[i].bytes == 0
    ensures run[i].owed == {}
  {
    var s := run[i];
    if ev :| ev in s.owed {
      RunKeepsInv(run, count, i);
      var t := SleepersWaker(s, ev, count);
      assert false;
    }
  }

  // ---------- Runs with their steps ----------

  datatype Act = Spawned(t: nat, ev: Event) | Moved(t: nat) | Looped(c: Choice)

  /** Poll reports the pipe when there is something in it. */
  predicate Prompt(s: State, c: Choice) {
    Allowed(s, c) && (s.loop.Poll? ==> c.ready == (s.bytes > 0))
  }

  ghost predicate Step(s: State, a: Act, s': State, count: Count) {
    match a
    case Spawned(t, ev) => Spawn(s, s', t, ev, count)
    case Moved(t) => t in s.senders && s' == AfterSender(s, t)
    case Looped(c) => Prompt(s, c) && s' == AfterLoop(s, c, count)
  }

  /** A run together with who made each step. */
  ghost predicate IsTrace(run: seq<State>, acts: seq<Act>, count: Count) {
    |run| == |acts| + 1 && Init(run[0]) && forall i :: 0 <= i < |acts| ==> Step(run[i], acts[i], run[i + 1], count)
  }

  lemma StepIsNext(s: State, a: Act, s': State, count: Count)
    requires Step(s, a, s', count)
    ensures Next(s, s', count)
  {
    match a
    case Spawned(t, ev) =>
    case Moved(t) =>
    case Looped(c) =>
  }

  lemma TraceIsRun(run: seq<State>, acts: seq<Act>, count: Count)
    requires IsTrace(run, acts, count)
    ensures IsRun(run, count)
  {
    forall i | 0 <= i < |run| - 1
      ensures Next(run[i], run[i + 1], count)
    {
      StepIsNext(run[i], acts[i], run[i + 1], count);
    }
  }

  /** The loop is about to feed ev. */
  predicate AtFeed(s: State, ev: Event) {
    s.loop == Feed(ev.kind, ev.id)
  }

  // ---------- A pass of pipecb feeds what it finds ----------

  /** pipecb has ev in hand: it will test its flag, which is up, or look at its mark. */
  predicate InHand(s: State, ev: Event) {
    ev in s.sent && ((ev.kind in s.flags && WillTest(s.loop, ev.kind)) || WillScan(s.loop, ev))
  }

  lemma InHandStep(s: State, s': State, ev: Event, count: Count)
    requires Next(s, s', count) && InHand(s, ev) && ev.id < count.Of(ev.kind)
    ensures InHand(s', ev) || AtFeed(s', ev)
  {
    if t, e :| Spawn(s, s', t, e, count) {
    } else if t :| t in s.senders && s' == AfterSender(s, t) {
      SenderFrame(s, t);
    } else {
      var c :| Allowed(s, c) && s' == AfterLoop(s, c, count);
      PassInHand(s, ev, count);
    }
  }

  /** What no sender step undoes. */
  lemma SenderFrame(s: State, t: nat)
    requires t in s.senders
    ensures var s' := AfterSender(s, t);
      && s.sent <= s'.sent && s.flags <= s'.flags && s.bytes <= s'.bytes && s.owed <= s'.owed
      && s'.loop == s.loop && s'.fed == s.fed && s'.readable == s.readable && s'.wanted == s.wanted
  {
    match s.senders[t].pc
    case Mark =>
    case ReadFlag =>
    case SetFlag =>
    case SetSkipped =>
    case ReadWanted =>
    case UnsetSkipped =>
    case WritePipe =>
    case Returned =>
  }

  lemma PassInHand(s: State, ev: Event, count: Count)
    requires InPass(s.loop) && InHand(s, ev) && ev.id < count.Of(ev.kind)
    ensures var s' := AfterPass(s, count); InHand(s', ev) || AtFeed(s', ev)
  {
    if s.loop.ClearSkipped? || s.loop.TestFlag? || s.loop.ClearFlag? {
      FlagInHand(s, ev, count);
    } else {
      ScanInHand(s, ev, count);
    }
  }

  lemma FlagInHand(s: State, ev: Event, count: Count)
    requires (s.loop.ClearSkipped? || s.loop.TestFlag? || s.loop.ClearFlag?) && InHand(s, ev) &&
      ev.id < count.Of(ev.kind)
    ensures InHand(AfterPass(s, count), ev)
  {
  }

  lemma ScanInHand(s: State, ev: Event, count: Count)
    requires (s.loop.Scan? || s.loop.ClearSent? || s.loop.Feed?) && InHand(s, ev)
    ensures var s' := AfterPass(s, count); InHand(s', ev) || AtFeed(s', ev)
  {
    match s.loop
    case Scan(k, i) => assert k == ev.kind && i == ev.id + 1 ==> Event(k, i - 1) == ev;
    case ClearSent(k, i) =>
    case Feed(k, i) =>
  }

  /**
   Whatever senders do meanwhile: if pipecb has ev in hand at i, it has fed it before the loop
   is back ahead of its next poll.
   */
  lemma PassFeeds(run: seq<State>, count: Count, i: nat, j: nat, ev: Event) returns (k: nat)
    requires IsRun(run, count) && i < j < |run| && InHand(run[i], ev) && ev.id < count.Of(ev.kind) &&
      run[j].loop == Ahead
    ensures i < k < j && AtFeed(run[k], ev)
  {
    forall m | i <= m < j && InHand(run[m], ev)
      ensures HandedOn(run, m, ev)
    {
      InHandStep(run[m], run[m + 1], ev, count);
    }
    k := UntilFed(run, i, j, ev);
  }

  ghost predicate HandedOn(run: seq<State>, m: nat, ev: Event)
    requires m + 1 < |run|
  {
    InHand(run[m + 1], ev) || AtFeed(run[m + 1], ev)
  }

  lemma {:induction false} UntilFed(run: seq<State>, i: nat, j: nat, ev: Event) returns (k: nat)
    requires i < j < |run| && InHand(run[i], ev) && run[j].loop == Ahead
    requires forall m :: i <= m < j && InHand(run[m], ev) ==> HandedOn(run, m, ev)
    ensures i < k < j && AtFeed(run[k], ev)
    decreases j - i
  {
    assert HandedOn(run, i, ev);
    if AtFeed(run[i + 1], ev) { k := i + 1; } else { k := UntilFed(run, i + 1, j, ev); }
  }

  // ---------- From a byte in the pipe to the feed ----------

  /** ev is marked, and its flag is up or the loop is on its way to the mark. */
  predicate Flagged(s: State, ev: Event, count: Count) {
    ev in s.sent && ev.id < count.Of(ev.kind) && (ev.kind in s.flags || WillScan(s.loop, ev))
  }

  /** And nothing but loop steps is missing: a byte is in the pipe, or pipecb is pending or has ev in hand. */
  predicate Reached(s: State, ev: Event, count: Count) {
    Flagged(s, ev, count) && (s.bytes > 0 || s.fed || s.loop == ReadPipe || InHand(s, ev))
  }

  function PassSteps(count: Count): nat {
    3 * count.async + 3 * count.sig + 7
  }

  /** Steps until pipecb has gone through all it will still look at. */
  function PassLeft(l: LoopPc, count: Count): nat {
    var a, z := 3 * count.async + 4, PassSteps(count);
    match l
    case TestFlag(k) => if k == Async then a - 1 else z
    case ClearFlag(k) => if k == Async then a - 2 else z - 1
    case Scan(k, i) => 3 * i + 1 + (if k == Async then 0 else a)
    case ClearSent(k, i) => 3 * i + 3 + (if k == Async then 0 else a)
    case Feed(k, i) => 3 * i + 2 + (if k == Async then 0 else a)
    case ClearSkipped => z + 1
    case ReadPipe => z + 2
    case _ => 0
  }

  /** An upper bound for the loop steps until ev is fed; senders have no part in it. */
  function StepsLeft(s: State, ev: Event, count: Count): nat {
    var z := PassSteps(count);
    match s.loop
    case Ahead => z + 8
    case CheckSkipped => z + 7
    case Poll(_) => z + 6
    case ClearWanted => if s.fed then z + 5 else z + 11
    case RecheckSkipped => if s.fed then z + 4 else z + 10
    case Dispatch => if s.fed then z + 3 else z + 9
    case ReadPipe => z + 2
    case _ => if InHand(s, ev) then PassLeft(s.loop, count) else z + 9 + PassLeft(s.loop, count)
  }

  ghost predicate Closer(s: State, s': State, ev: Event, count: Count, n: nat) {
    AtFeed(s', ev) || (Reached(s', ev, count) && StepsLeft(s', ev, count) + n <= StepsLeft(s, ev, count))
  }

  lemma PassLeftDrops(s: State, count: Count)
    requires InPass(s.loop) && InRange(s, count)
    ensures PassLeft(AfterPass(s, count).loop, count) < PassLeft(s.loop, count)
  {
    if s.loop.ClearSkipped? || s.loop.TestFlag? || s.loop.ClearFlag? {
      FlagsLeft(s, count);
    } else {
      ScanLeft(s, count);
    }
  }

  lemma FlagsLeft(s: State, count: Count)
    requires s.loop.ClearSkipped? || s.loop.TestFlag? || s.loop.ClearFlag?
    ensures PassLeft(AfterPass(s, count).loop, count) < PassLeft(s.loop, count)
  {
  }

  lemma ScanLeft(s: State, count: Count)
    requires s.loop.Scan? || s.loop.ClearSent? || s.loop.Feed?
    ensures PassLeft(AfterPass(s, count).loop, count) < PassLeft(s.loop, count)
  {
    match s.loop
    case Scan(k, i) => if i == 0 { match k { case Sig => case Async => } } else {}
    case ClearSent(k, i) =>
    case Feed(k, i) =>
  }

  lemma PassCloser(s: State, ev: Event, count: Count)
    requires InPass(s.loop) && InRange(s, count) && LoopBooks(s) && Reached(s, ev, count)
    ensures Closer(s, AfterPass(s, count), ev, count, 1)
  {
    PassLeftDrops(s, count);
    if InHand(s, ev) {
      PassInHand(s, ev, count);
      HandIsFlagged(AfterPass(s, count), ev, count);
    } else {
      PassAgain(s, ev, count);
    }
  }

  lemma HandIsFlagged(s: State, ev: Event, count: Count)
    requires ev.id < count.Of(ev.kind)
    ensures InHand(s, ev) ==> Reached(s, ev, count) && InPass(s.loop)
  {
  }

  /** The pass is past ev: the byte brings the next one. */
  lemma PassAgain(s: State, ev: Event, count: Count)
    requires InPass(s.loop) && LoopBooks(s) && Reached(s, ev, count) && !InHand(s, ev)
    ensures var s' := AfterPass(s, count);
      Flagged(s', ev, count) && s'.bytes > 0 && (InPass(s'.loop) || s'.loop == Ahead)
  {
  }

  lemma PollCloser(s: State, c: Choice, ev: Event, count: Count)
    requires !InPass(s.loop) && LoopBooks(s) && Prompt(s, c) && Reached(s, ev, count)
    ensures Closer(s, AfterPoll(s, c), ev, count, 1)
  {
    match s.loop
    case Ahead =>
    case CheckSkipped =>
    case Poll(_) =>
    case ClearWanted =>
    case RecheckSkipped =>
    case Dispatch =>
    case ReadPipe =>
  }

  lemma SenderSame(s: State, t: nat, ev: Event, count: Count)
    requires t in s.senders && Reached(s, ev, count)
    ensures Closer(s, AfterSender(s, t), ev, count, 0)
  {
    SenderFrame(s, t);
    var s' := AfterSender(s, t);
    assert InHand(s, ev) ==> InHand(s', ev);
  }

  function LoopStep(a: Act): nat {
    if a.Looped? then 1 else 0
  }

  lemma CloserStep(s: State, a: Act, s': State, ev: Event, count: Count)
    requires Inv(s, count) && Step(s, a, s', count) && Reached(s, ev, count)
    ensures Closer(s, s', ev, count, LoopStep(a))
  {
    match a
    case Spawned(t, e) =>
    case Moved(t) => SenderSame(s, t, ev, count);
    case Looped(c) =>
      if InPass(s.loop) { PassCloser(s, ev, count); } else { PollCloser(s, c, ev, count); }
  }

  // ---------- Following a run ----------

  /** Loop steps among the steps i, ..., j - 1. */
  ghost function LoopSteps(acts: seq<Act>, i: nat, j: nat): nat
    requires i <= j <= |acts|
    decreases j - i
  {
    if i == j then 0 else LoopStep(acts[i]) + LoopSteps(acts, i + 1, j)
  }

  ghost predicate FedIn(run: seq<State>, ev: Event, i: nat, j: nat) {
    exists k :: i <= k <= j && k < |run| && AtFeed(run[k], ev)
  }

  lemma TraceStep(run: seq<State>, acts: seq<Act>, count: Count, m: nat)
    requires IsTrace(run, acts, count) && m < |acts|
    ensures Inv(run[m], count) && Inv(run[m + 1], count) && Step(run[m], acts[m], run[m + 1], count)
  {
    TraceIsRun(run, acts, count);
    RunKeepsInv(run, count, m);
    RunKeepsInv(run, count, m + 1);
  }

  /** A property of a state and of the loop steps made so far. */
  type Tally = (State, nat) -> bool

  /** Step m keeps p, unless it reaches the feed of ev. */
  ghost predicate Kept(run: seq<State>, acts: seq<Act>, m: nat, n: nat, ev: Event, p: Tally)
    requires m < |acts| == |run| - 1
  {
    p(run[m], n) ==> AtFeed(run[m + 1], ev) || p(run[m + 1], n + LoopStep(acts[m]))
  }

  /** What every step keeps holds at j, if ev is not fed before. */
  lemma {:induction false} Follow(run: seq<State>, acts: seq<Act>, i: nat, j: nat, n: nat, ev: Event, p: Tally)
    requires |run| == |acts| + 1 && i <= j < |run| && p(run[i], n)
    requires forall m, k :: i <= m < j && k >= 0 ==> Kept(run, acts, m, k, ev, p)
    ensures FedIn(run, ev, i, j) || p(run[j], n + LoopSteps(acts, i, j))
    decreases j - i
  {
    if i < j {
      assert Kept(run, acts, i, n, ev, p);
      if !AtFeed(run[i + 1], ev) { Follow(run, acts, i + 1, j, n + LoopStep(acts[i]), ev, p); }
    }
  }

  /**
   Whatever senders do meanwhile: with ev flagged and a byte in the pipe, or pipecb on its way,
   ev is fed within a bounded number of loop steps.
   */
  lemma ReachedIsFed(run: seq<State>, acts: seq<Act>, count: Count, i: nat, j: nat, ev: Event)
    requires IsTrace(run, acts, count) && i <= j < |run| && Reached(run[i], ev, count)
    requires LoopSteps(acts, i, j) > StepsLeft(run[i], ev, count)
    ensures FedIn(run, ev, i, j)
  {
    var all := StepsLeft(run[i], ev, count);
    var p := (s: State, n: nat) => Reached(s, ev, count) && StepsLeft(s, ev, count) + n <= all;
    forall m, k | i <= m < j && k >= 0
      ensures Kept(run, acts, m, k, ev, p)
    {
      TraceStep(run, acts, count, m);
      if p(run[m], k) { CloserStep(run[m], acts[m], run[m + 1], ev, count); }
    }
    Follow(run, acts, i, j, 0, ev, p);
  }

  // ---------- Every send is fed, under any interleaving ----------

  /** The loop sleeps on an empty pipe. */
  predicate Asleep(s: State) {
    s.loop == Poll(true) && s.bytes == 0
  }

  /** Enough loop steps for anything pipecb has to do. */
  function Patience(count: Count): nat {
    2 * PassSteps(count) + 12
  }

  /**
   A stretch of a run in which everybody gets on: who was sending when it began has returned when
   it ends, and the loop has made many steps or sleeps on an empty pipe. Other senders may come,
   go and stop half way as they like.
   */
  ghost predicate Fair(run: seq<State>, acts: seq<Act>, i: nat, j: nat, count: Count)
    requires |run| == |acts| + 1
  {
    && i <= j < |run|
    && (forall t :: t in run[i].senders && run[i].senders[t].pc != Returned ==> SenderAt(run[j].senders, t, {Returned}))
    && (LoopSteps(acts, i, j) >= Patience(count) || Asleep(run[j]))
  }

  lemma RankBound(s: State, ev: Event, count: Count)
    requires InRange(s, count)
    ensures StepsLeft(s, ev, count) < Patience(count) && PassLeft(s.loop, count) <= PassSteps(count) + 2
  {
    match s.loop
    case Scan(k, i) => match k { case Sig => case Async => }
    case ClearSent(k, i) => match k { case Sig => case Async => }
    case Feed(k, i) => match k { case Sig => case Async => }
    case _ =>
  }

  /** Sender t is bound to write a byte. */
  ghost predicate Writer(s: State, t: nat) {
    SenderAt(s.senders, t, {UnsetSkipped, WritePipe})
  }

  ghost predicate HasWriter(s: State) {
    exists t :: Writer(s, t)
  }

  // Stage 1: the flag

  /** ev is flagged, or marked and sender t is about to raise its flag. */
  ghost predicate Raised(s: State, t: nat, ev: Event, count: Count) {
    Flagged(s, ev, count) ||
    (ev in s.sent && ev.id < count.Of(ev.kind) && SenderAt(s.senders, t, {ReadFlag, SetFlag}) &&
      s.senders[t].ev.kind == ev.kind)
  }

  lemma FlaggedStep(s: State, a: Act, s': State, ev: Event, count: Count)
    requires Step(s, a, s', count) && Flagged(s, ev, count)
    ensures Flagged(s', ev, count) || AtFeed(s', ev)
  {
    match a
    case Spawned(t, e) =>
    case Moved(t) => SenderFrame(s, t);
    case Looped(c) =>
      if InPass(s.loop) { PassFlagged(s, ev, count); } else { PollFrame(s, c); }
  }

  lemma PassFlagged(s: State, ev: Event, count: Count)
    requires InPass(s.loop) && Flagged(s, ev, count)
    ensures var s' := AfterPass(s, count); Flagged(s', ev, count) || AtFeed(s', ev)
  {
    if InHand(s, ev) { PassInHand(s, ev, count); }
  }

  lemma RaisedStep(s: State, a: Act, s': State, t: nat, ev: Event, count: Count)
    requires Step(s, a, s', count) && Raised(s, t, ev, count)
    ensures Raised(s', t, ev, count) || AtFeed(s', ev)
  {
    if Flagged(s, ev, count) {
      FlaggedStep(s, a, s', ev, count);
    } else {
      match a
      case Spawned(u, e) =>
      case Moved(u) => RaiserMoves(s, u, t, ev, count);
      case Looped(c) => LoopLeavesMark(s, c, ev, count);
    }
  }

  lemma RaiserMoves(s: State, u: nat, t: nat, ev: Event, count: Count)
    requires u in s.senders && Raised(s, t, ev, count)
    ensures Raised(AfterSender(s, u), t, ev, count)
  {
    match s.senders[u].pc
    case Mark =>
    case ReadFlag =>
    case SetFlag =>
    case SetSkipped =>
    case ReadWanted =>
    case UnsetSkipped =>
    case WritePipe =>
    case Returned =>
  }

  lemma LoopLeavesMark(s: State, c: Choice, ev: Event, count: Count)
    requires Allowed(s, c) && ev in s.sent && !WillScan(s.loop, ev)
    ensures ev in AfterLoop(s, c, count).sent && AfterLoop(s, c, count).senders == s.senders
  {
    if InPass(s.loop) {
      match s.loop
      case ClearSkipped =>
      case TestFlag(k) =>
      case ClearFlag(k) =>
      case Scan(k, i) =>
      case ClearSent(k, i) =>
      case Feed(k, i) =>
    } else {
      PollFrame(s, c);
    }
  }

  // Stage 2: the token

  /** ev is flagged and a token for it is left: the way is clear, a skip is announced, or a sender will write. */
  ghost predicate Token(s: State, ev: Event, count: Count) {
    Flagged(s, ev, count) && (Reached(s, ev, count) || s.skipped || HasWriter(s))
  }

  lemma WriterMoves(s: State, u: nat, t: nat)
    requires u in s.senders && Writer(s, t)
    ensures Writer(AfterSender(s, u), t) || (u == t && AfterSender(s, u).bytes > 0)
  {
    match s.senders[u].pc
    case Mark =>
    case ReadFlag =>
    case SetFlag =>
    case SetSkipped =>
    case ReadWanted =>
    case UnsetSkipped =>
    case WritePipe =>
    case Returned =>
  }

  lemma SkipMoves(s: State, u: nat)
    requires u in s.senders && s.skipped
    ensures AfterSender(s, u).skipped || Writer(AfterSender(s, u), u)
  {
    match s.senders[u].pc
    case Mark =>
    case ReadFlag =>
    case SetFlag =>
    case SetSkipped =>
    case ReadWanted =>
    case UnsetSkipped =>
    case WritePipe =>
    case Returned =>
  }

  lemma TokenSender(s: State, u: nat, ev: Event, count: Count)
    requires u in s.senders && Token(s, ev, count)
    ensures Token(AfterSender(s, u), ev, count)
  {
    SenderFrame(s, u);
    var s' := AfterSender(s, u);
    if Reached(s, ev, count) {
      SenderSame(s, u, ev, count);
    } else if s.skipped {
      SkipMoves(s, u);
    } else {
      var t :| Writer(s, t);
      WriterMoves(s, u, t);
    }
  }

  lemma LoopKeepsSkip(s: State, c: Choice, ev: Event, count: Count)
    requires Allowed(s, c)
    ensures var s' := AfterLoop(s, c, count);
      s'.senders == s.senders && (s'.skipped == s.skipped || s.loop == ClearSkipped)
  {
    if InPass(s.loop) {
      match s.loop
      case ClearSkipped =>
      case TestFlag(k) =>
      case ClearFlag(k) =>
      case Scan(k, i) =>
      case ClearSent(k, i) =>
      case Feed(k, i) =>
    } else {
      PollFrame(s, c);
    }
  }

  lemma TokenLoop(s: State, c: Choice, ev: Event, count: Count)
    requires Inv(s, count) && Prompt(s, c) && Token(s, ev, count)
    ensures var s' := AfterLoop(s, c, count); Token(s', ev, count) || AtFeed(s', ev)
  {
    var s' := AfterLoop(s, c, count);
    FlaggedStep(s, Looped(c), s', ev, count);
    if Reached(s, ev, count) {
      CloserStep(s, Looped(c), s', ev, count);
    } else {
      LoopKeepsSkip(s, c, ev, count);
      if HasWriter(s) {
        var t :| Writer(s, t);
        assert Writer(s', t);
      }
    }
  }

  lemma TokenStep(s: State, a: Act, s': State, ev: Event, count: Count)
    requires Inv(s, count) && Step(s, a, s', count) && Token(s, ev, count)
    ensures Token(s', ev, count) || AtFeed(s', ev)
  {
    match a
    case Spawned(t, e) =>
      if HasWriter(s) {
        var u :| Writer(s, u);
        assert Writer(s', u);
      }
    case Moved(u) => TokenSender(s, u, ev, count);
    case Looped(c) => TokenLoop(s, c, ev, count);
  }

  /** There is a token, or sender t has raised a flag and will announce a skip. */
  ghost predicate TokenSoon(s: State, t: nat, ev: Event, count: Count) {
    Token(s, ev, count) || (Flagged(s, ev, count) && SenderAt(s.senders, t, {SetSkipped}))
  }

  lemma TokenSoonStep(s: State, a: Act, s': State, t: nat, ev: Event, count: Count)
    requires Inv(s, count) && Step(s, a, s', count) && TokenSoon(s, t, ev, count)
    ensures TokenSoon(s', t, ev, count) || AtFeed(s', ev)
  {
    if Token(s, ev, count) {
      TokenStep(s, a, s', ev, count);
    } else {
      FlaggedStep(s, a, s', ev, count);
      match a
      case Spawned(u, e) =>
      case Moved(u) =>
        if u == t { assert s'.skipped; } else { SenderFrame(s, u); OthersStay(s, u, t); }
      case Looped(c) => LoopKeepsSkip(s, c, ev, count);
    }
  }

  lemma OthersStay(s: State, u: nat, t: nat)
    requires u in s.senders && t in s.senders && u != t
    ensures t in AfterSender(s, u).senders && AfterSender(s, u).senders[t] == s.senders[t]
  {
    match s.senders[u].pc
    case Mark =>
    case ReadFlag =>
    case SetFlag =>
    case SetSkipped =>
    case ReadWanted =>
    case UnsetSkipped =>
    case WritePipe =>
    case Returned =>
  }

  // Stage 3: the skip

  /** Loop steps until an announced skip is seen. */
  function SkipLeft(s: State, count: Count): nat {
    match s.loop
    case RecheckSkipped => 1
    case ClearWanted => 2
    case Poll(_) => 3
    case CheckSkipped => 4
    case Ahead => 5
    case Dispatch => 6
    case _ => 6 + PassLeft(s.loop, count)
  }

  /** The way is clear, or a sender will write. */
  ghost predicate Sure(s: State, ev: Event, count: Count) {
    Flagged(s, ev, count) && (Reached(s, ev, count) || HasWriter(s))
  }

  lemma SkipLoop(s: State, c: Choice, ev: Event, count: Count)
    requires Inv(s, count) && Prompt(s, c) && Flagged(s, ev, count) && s.skipped && !Reached(s, ev, count)
    ensures var s' := AfterLoop(s, c, count);
      AtFeed(s', ev) || Reached(s', ev, count) ||
        (Flagged(s', ev, count) && s'.skipped && SkipLeft(s', count) < SkipLeft(s, count))
  {
    var s' := AfterLoop(s, c, count);
    FlaggedStep(s, Looped(c), s', ev, count);
    LoopKeepsSkip(s, c, ev, count);
    if InPass(s.loop) {
      PassLeftDrops(s, count);
      PassExits(s, count);
    } else {
      match s.loop
      case Ahead =>
      case CheckSkipped =>
      case Poll(_) =>
      case ClearWanted =>
      case RecheckSkipped =>
      case Dispatch =>
      case ReadPipe =>
    }
  }

  lemma PassExits(s: State, count: Count)
    requires InPass(s.loop)
    ensures var s' := AfterPass(s, count); (InPass(s'.loop) || s'.loop == Ahead)
  {
  }

  lemma SureStep(s: State, a: Act, s': State, ev: Event, count: Count)
    requires Inv(s, count) && Step(s, a, s', count) && Sure(s, ev, count)
    ensures Sure(s', ev, count) || AtFeed(s', ev)
  {
    if Reached(s, ev, count) {
      CloserStep(s, a, s', ev, count);
    } else {
      var t :| Writer(s, t);
      WriterStep(s, a, s', t, ev, count);
    }
  }

  /** Flagged, and sender t has not yet written. */
  ghost predicate Writing(s: State, t: nat, ev: Event, count: Count) {
    Flagged(s, ev, count) && Writer(s, t)
  }

  lemma WriterStep(s: State, a: Act, s': State, t: nat, ev: Event, count: Count)
    requires Step(s, a, s', count) && Writing(s, t, ev, count)
    ensures AtFeed(s', ev) || Reached(s', ev, count) || Writing(s', t, ev, count)
  {
    FlaggedStep(s, a, s', ev, count);
    match a
    case Spawned(u, e) =>
    case Moved(u) => WriterMoves(s, u, t);
    case Looped(c) => LoopKeepsSkip(s, c, ev, count);
  }

  lemma SkipStep(s: State, a: Act, s': State, ev: Event, count: Count)
    requires Inv(s, count) && Step(s, a, s', count) && Flagged(s, ev, count) && s.skipped
    ensures AtFeed(s', ev) || Sure(s', ev, count)
      || (Flagged(s', ev, count) && s'.skipped && SkipLeft(s', count) + LoopStep(a) <= SkipLeft(s, count))
  {
    if Reached(s, ev, count) {
      CloserStep(s, a, s', ev, count);
    } else {
      match a
      case Spawned(u, e) =>
      case Moved(u) =>
        SenderFrame(s, u);
        SkipMoves(s, u);
      case Looped(c) => SkipLoop(s, c, ev, count);
    }
  }

  // Stage 4: the skip a sleeping loop has not seen

  /** The loop sleeps over a skip whose sender t has still to read pipe_write_wanted, or is just getting up. */
  ghost predicate Dozing(s: State, t: nat, ev: Event, count: Count) {
    && Flagged(s, ev, count) && s.skipped
    && ((s.loop == Poll(true) && SenderAt(s.senders, t, {ReadWanted})) || s.loop == ClearWanted ||
      s.loop == RecheckSkipped)
  }

  lemma DozingStep(s: State, a: Act, s': State, t: nat, ev: Event, count: Count)
    requires Inv(s, count) && Step(s, a, s', count) && Dozing(s, t, ev, count)
    ensures AtFeed(s', ev) || Sure(s', ev, count) ||
      (Dozing(s', t, ev, count) && SkipLeft(s', count) + LoopStep(a) <= SkipLeft(s, count))
  {
    SkipStep(s, a, s', ev, count);
    match a
    case Spawned(u, e) =>
    case Moved(u) => DozingSender(s, u, t, ev, count);
    case Looped(c) =>
  }

  lemma DozingSender(s: State, u: nat, t: nat, ev: Event, count: Count)
    requires LoopBooks(s) && u in s.senders && Dozing(s, t, ev, count)
    ensures HasWriter(AfterSender(s, u)) || Dozing(AfterSender(s, u), t, ev, count)
  {
    var s' := AfterSender(s, u);
    SenderFrame(s, u);
    SkipMoves(s, u);
    if t in s.senders && u != t { OthersStay(s, u, t); }
    if u == t && s.loop == Poll(true) { assert Writer(s', t); }
  }

  ghost predicate InFlight(s: State, t: nat) {
    t in s.senders && s.senders[t].pc != Returned
  }

  lemma HasReturned(run: seq<State>, acts: seq<Act>, i: nat, j: nat, count: Count, t: nat)
    requires |run| == |acts| + 1 && Fair(run, acts, i, j, count) && InFlight(run[i], t)
    ensures SenderAt(run[j].senders, t, {Returned})
  {
  }

  // ---------- One fair stretch for each stage ----------

  lemma GetsFlagged(run: seq<State>, acts: seq<Act>, count: Count, i: nat, j: nat, ev: Event)
    requires IsTrace(run, acts, count) && Fair(run, acts, i, j, count) && ev in run[i].owed
    ensures FedIn(run, ev, i, j) || Flagged(run[j], ev, count)
  {
    TraceInv(run, acts, count, i);
    if !AtFeed(run[i], ev) {
      var t := RaiserOf(run[i], ev, count);
      var b := InFlight(run[i], t);
      var p: Tally := (s: State, n: nat) => if b then Raised(s, t, ev, count) else Flagged(s, ev, count);
      forall m, k | i <= m < j && k >= 0
        ensures Kept(run, acts, m, k, ev, p)
      {
        TraceStep(run, acts, count, m);
        if Flagged(run[m], ev, count) {
          FlaggedStep(run[m], acts[m], run[m + 1], ev, count);
        } else if p(run[m], k) {
          RaisedStep(run[m], acts[m], run[m + 1], t, ev, count);
        }
      }
      Follow(run, acts, i, j, 0, ev, p);
      if b { HasReturned(run, acts, i, j, count, t); }
    }
  }

  lemma TraceInv(run: seq<State>, acts: seq<Act>, count: Count, i: nat)
    requires IsTrace(run, acts, count) && i < |run|
    ensures Inv(run[i], count)
  {
    TraceIsRun(run, acts, count);
    RunKeepsInv(run, count, i);
  }

  lemma RaiserOf(s: State, ev: Event, count: Count) returns (t: nat)
    requires Inv(s, count) && ev in s.owed && !AtFeed(s, ev)
    ensures Raised(s, t, ev, count)
  {
    assert Announced(s, ev, count);
    t := 0;
    if !Flagged(s, ev, count) {
      t :| SenderAt(s.senders, t, {ReadFlag, SetFlag}) && s.senders[t].ev.kind == ev.kind;
    }
  }

  lemma GetsToken(run: seq<State>, acts: seq<Act>, count: Count, i: nat, j: nat, ev: Event)
    requires IsTrace(run, acts, count) && Fair(run, acts, i, j, count) && Flagged(run[i], ev, count)
    ensures FedIn(run, ev, i, j) || Token(run[j], ev, count)
  {
    TraceInv(run, acts, count, i);
    var t := WakerOf(run[i], ev, count);
    var b := InFlight(run[i], t);
    var p: Tally := (s: State, n: nat) => if b then TokenSoon(s, t, ev, count) else Token(s, ev, count);
    forall m, k | i <= m < j && k >= 0
      ensures Kept(run, acts, m, k, ev, p)
    {
      TraceStep(run, acts, count, m);
      if Token(run[m], ev, count) {
        TokenStep(run[m], acts[m], run[m + 1], ev, count);
      } else if p(run[m], k) {
        TokenSoonStep(run[m], acts[m], run[m + 1], t, ev, count);
      }
    }
    Follow(run, acts, i, j, 0, ev, p);
    if b { HasReturned(run, acts, i, j, count, t); }
  }

  lemma WakerOf(s: State, ev: Event, count: Count) returns (t: nat)
    requires Inv(s, count) && Flagged(s, ev, count)
    ensures TokenSoon(s, t, ev, count)
  {
    t := 0;
    if !Token(s, ev, count) {
      t :| SenderAt(s.senders, t, {SetSkipped, UnsetSkipped, WritePipe});
      assert !Writer(s, t);
    }
  }

  lemma SkipIsUsed(run: seq<State>, acts: seq<Act>, count: Count, i: nat, j: nat, ev: Event)
    requires IsTrace(run, acts, count) && Fair(run, acts, i, j, count) && Token(run[i], ev, count)
    ensures FedIn(run, ev, i, j) || Sure(run[j], ev, count) || exists t ::
      Dozing(run[j], t, ev, count) && run[j].loop == Poll(true)
  {
    TraceInv(run, acts, count, i);
    TraceInv(run, acts, count, j);
    RankBound(run[i], ev, count);
    var all := SkipLeft(run[i], count);
    var p: Tally := (s: State, n: nat) => Sure(s, ev, count) ||
      (Flagged(s, ev, count) && s.skipped && SkipLeft(s, count) + n <= all);
    forall m, k | i <= m < j && k >= 0
      ensures Kept(run, acts, m, k, ev, p)
    {
      TraceStep(run, acts, count, m);
      if Sure(run[m], ev, count) {
        SureStep(run[m], acts[m], run[m + 1], ev, count);
      } else if p(run[m], k) {
        SkipStep(run[m], acts[m], run[m + 1], ev, count);
      }
    }
    Follow(run, acts, i, j, 0, ev, p);
    if !Sure(run[j], ev, count) && Asleep(run[j]) && run[j].skipped && Flagged(run[j], ev, count) {
      var t :| SenderAt(run[j].senders, t, {ReadWanted, UnsetSkipped, WritePipe});
      assert !Writer(run[j], t);
      assert Dozing(run[j], t, ev, count);
    }
  }

  lemma DozingEnds(run: seq<State>, acts: seq<Act>, count: Count, i: nat, j: nat, t: nat, ev: Event)
    requires IsTrace(run, acts, count) && Fair(run, acts, i, j, count)
    requires Dozing(run[i], t, ev, count) && run[i].loop == Poll(true)
    ensures FedIn(run, ev, i, j) || Sure(run[j], ev, count)
  {
    var p: Tally := (s: State, n: nat) => Sure(s, ev, count) ||
      (Dozing(s, t, ev, count) && SkipLeft(s, count) + n <= 3);
    forall m, k | i <= m < j && k >= 0
      ensures Kept(run, acts, m, k, ev, p)
    {
      TraceStep(run, acts, count, m);
      if Sure(run[m], ev, count) {
        SureStep(run[m], acts[m], run[m + 1], ev, count);
      } else if p(run[m], k) {
        DozingStep(run[m], acts[m], run[m + 1], t, ev, count);
      }
    }
    Follow(run, acts, i, j, 0, ev, p);
    HasReturned(run, acts, i, j, count, t);
  }

  lemma SureStays(run: seq<State>, acts: seq<Act>, count: Count, i: nat, j: nat, ev: Event)
    requires IsTrace(run, acts, count) && i <= j < |run| && Sure(run[i], ev, count)
    ensures FedIn(run, ev, i, j) || Sure(run[j], ev, count)
  {
    var p: Tally := (s: State, n: nat) => Sure(s, ev, count);
    forall m, k | i <= m < j && k >= 0
      ensures Kept(run, acts, m, k, ev, p)
    {
      TraceStep(run, acts, count, m);
      if p(run[m], k) { SureStep(run[m], acts[m], run[m + 1], ev, count); }
    }
    Follow(run, acts, i, j, 0, ev, p);
  }

  lemma ByteIsWritten(run: seq<State>, acts: seq<Act>, count: Count, i: nat, j: nat, ev: Event)
    requires IsTrace(run, acts, count) && Fair(run, acts, i, j, count) && Sure(run[i], ev, count)
    ensures FedIn(run, ev, i, j) || Reached(run[j], ev, count)
  {
    var t := if HasWriter(run[i]) then var t :| Writer(run[i], t); t else 0;
    var b := InFlight(run[i], t);
    var p: Tally := (s: State, n: nat) => Reached(s, ev, count) || (b && Writing(s, t, ev, count));
    forall m, k | i <= m < j && k >= 0
      ensures Kept(run, acts, m, k, ev, p)
    {
      TraceStep(run, acts, count, m);
      if Reached(run[m], ev, count) {
        CloserStep(run[m], acts[m], run[m + 1], ev, count);
      } else if p(run[m], k) {
        WriterStep(run[m], acts[m], run[m + 1], t, ev, count);
      }
    }
    Follow(run, acts, i, j, 0, ev, p);
    if b { HasReturned(run, acts, i, j, count, t); }
  }

  lemma ReachedStays(run: seq<State>, acts: seq<Act>, count: Count, i: nat, j: nat, ev: Event)
    requires IsTrace(run, acts, count) && i <= j < |run| && Reached(run[i], ev, count)
    ensures FedIn(run, ev, i, j) || Reached(run[j], ev, count)
  {
    var p: Tally := (s: State, n: nat) => Reached(s, ev, count);
    forall m, k | i <= m < j && k >= 0
      ensures Kept(run, acts, m, k, ev, p)
    {
      TraceStep(run, acts, count, m);
      if p(run[m], k) { CloserStep(run[m], acts[m], run[m + 1], ev, count); }
    }
    Follow(run, acts, i, j, 0, ev, p);
  }

  lemma FairFeeds(run: seq<State>, acts: seq<Act>, count: Count, i: nat, j: nat, ev: Event)
    requires IsTrace(run, acts, count) && Fair(run, acts, i, j, count) && Reached(run[i], ev, count)
    ensures FedIn(run, ev, i, j)
  {
    TraceInv(run, acts, count, i);
    RankBound(run[i], ev, count);
    if LoopSteps(acts, i, j) >= Patience(count) {
      ReachedIsFed(run, acts, count, i, j, ev);
    } else {
      TraceInv(run, acts, count, j);
      ReachedStays(run, acts, count, i, j, ev);
    }
  }

  /** Seven points, each a fair stretch after the one before. */
  ghost predicate FairStretches(run: seq<State>, acts: seq<Act>, at: seq<nat>, count: Count)
    requires |run| == |acts| + 1
  {
    && |at| == 7 && (forall k :: 0 <= k < 7 ==> at[k] < |run|)
    && Fair(run, acts, at[0], at[1], count) && Fair(run, acts, at[1], at[2], count)
    && Fair(run, acts, at[2], at[3], count)
    && Fair(run, acts, at[3], at[4], count) && Fair(run, acts, at[4], at[5], count)
    && Fair(run, acts, at[5], at[6], count)
  }

  lemma FedWider(run: seq<State>, ev: Event, i: nat, j: nat, i2: nat, j2: nat)
    requires i2 <= i && j <= j2
    ensures FedIn(run, ev, i, j) ==> FedIn(run, ev, i2, j2)
  {
  }

  /**
   Delivery: in every run, for any number of senders and any interleaving, whatever is owed is
   fed within six fair stretches. Senders that come later may stop anywhere.
   */
  lemma EverySendIsFed(run: seq<State>, acts: seq<Act>, count: Count, at: seq<nat>, ev: Event)
    requires IsTrace(run, acts, count) && FairStretches(run, acts, at, count) && ev in run[at[0]].owed
    ensures FedIn(run, ev, at[0], at[6])
  {
    GetsFlagged(run, acts, count, at[0], at[1], ev);
    FedWider(run, ev, at[0], at[1], at[0], at[6]);
    FedWider(run, ev, at[1], at[2], at[0], at[6]);
    FedWider(run, ev, at[2], at[3], at[0], at[6]);
    FedWider(run, ev, at[3], at[6], at[0], at[6]);
    if !FedIn(run, ev, at[0], at[6]) {
      GetsToken(run, acts, count, at[1], at[2], ev);
      SkipIsUsed(run, acts, count, at[2], at[3], ev);
      SureIsFed(run, acts, count, at, ev);
    }
  }

  lemma SureIsFed(run: seq<State>, acts: seq<Act>, count: Count, at: seq<nat>, ev: Event)
    requires IsTrace(run, acts, count) && FairStretches(run, acts, at, count)
    requires Sure(run[at[3]], ev, count) || exists t ::
      Dozing(run[at[3]], t, ev, count) && run[at[3]].loop == Poll(true)
    ensures FedIn(run, ev, at[3], at[6])
  {
    if Sure(run[at[3]], ev, count) {
      SureStays(run, acts, count, at[3], at[4], ev);
    } else {
      var t :| Dozing(run[at[3]], t, ev, count);
      DozingEnds(run, acts, count, at[3], at[4], t, ev);
    }
    FedWider(run, ev, at[3], at[4], at[3], at[6]);
    FedWider(run, ev, at[4], at[5], at[3], at[6]);
    FedWider(run, ev, at[5], at[6], at[3], at[6]);
    if !FedIn(run, ev, at[3], at[6]) {
      ByteIsWritten(run, acts, count, at[4], at[5], ev);
      FairFeeds(run, acts, count, at[5], at[6], ev);
    }
  }
}
