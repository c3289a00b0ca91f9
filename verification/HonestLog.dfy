/** An honest issuer and its log: when a user agent's synchronisation, which takes two requests, goes
    through, and which heads pass its gossip check, in all interleavings with key operations that may
    stop at any write. */
module HonestLog {
  import opened Wrappers
  import opened Bytes
  import opened TransLog
  import opened Keys
  import opened Federation
  import opened Lifecycle
  import opened LifecycleRuns
  import opened LogSync
  import opened PublicFiles

  /** What happens at an honest issuer: an operation on its keys, or one of the two requests of a
      synchronisation, first for the signed head and then for the log. */
  datatype Event = Change(op: Op) | FetchHead(head: SignedHead) | FetchLog

  /** The issuer's disk and clock; the user agent's pin and the head it has fetched; every log that was on
      disk so far, and every head file. */
  datatype Session = Session(disk: Disk, clock: int, agent: UAState, fetched: Option<SignedHead>,
                             published: seq<Log>, heads: seq<HeadFile>)

  /** The issuer signs the head of the log it has loaded. */
  predicate HonestHead(ed: SignatureCheck, s: Session, head: SignedHead) {
    && s.disk.log.Some? && HeadVerifies(ed, s.agent.logPublicRaw, head)
    && head.size == |s.disk.log.value| && head.headHash == Head(s.disk.log.value)
  }

  ghost predicate Allowed(c: KeyCodec, ed: SignatureCheck, s: Session, e: Event) {
    match e
    case Change(op) => Permitted(c, s.disk, s.clock, op)
    case FetchHead(head) => HonestHead(ed, s, head)
    case FetchLog => s.disk.log.Some? && s.fetched.Some?
  }

  /** What the two requests bring together. */
  function Fetched(s: Session, head: SignedHead, records: Log): Response {
    Response(s.agent.logPublicRaw, head, records)
  }

  /** The head file after each of the first `n` writes of an operation. */
  ghost function HeadsDuring(c: KeyCodec, disk: Disk, op: Op, n: nat): seq<HeadFile>
    requires WellFormed(op)
  {
    if n == 0 then []
    else
      var head := Step(c, disk, op.(stop := n)).0.head;
      HeadsDuring(c, disk, op, n - 1) + if head.Some? then [head.value] else []
  }

  ghost function Changed(c: KeyCodec, s: Session, op: Op): Session
    requires WellFormed(op)
  {
    Moved(s, Step(c, s.disk, op).0, op.now, HeadsDuring(c, s.disk, op, op.stop))
  }

  function Moved(s: Session, disk: Disk, now: int, seen: seq<HeadFile>): Session {
    s.(disk := disk, clock := now,
       published := if disk.log.Some? then s.published + [disk.log.value] else s.published,
       heads := s.heads + seen)
  }

  ghost function After(c: KeyCodec, ed: SignatureCheck, s: Session, e: Event): Session
    requires Allowed(c, ed, s, e)
  {
    match e
    case Change(op) => Changed(c, s, op)
    case FetchHead(head) => s.(fetched := Some(head))
    case FetchLog => s.(agent := AfterSync(c.sha, ed, s.agent, Fetched(s, s.fetched.value, s.disk.log.value)),
                        fetched := None)
  }

  ghost predicate AllowedRun(c: KeyCodec, ed: SignatureCheck, s: Session, events: seq<Event>)
    decreases |events|
  {
    events == [] || (Allowed(c, ed, s, events[0]) && AllowedRun(c, ed, After(c, ed, s, events[0]), events[1..]))
  }

  ghost function SessionAfter(c: KeyCodec, ed: SignatureCheck, s: Session, events: seq<Event>): Session
    requires AllowedRun(c, ed, s, events)
    decreases |events|
  {
    if events == [] then s else SessionAfter(c, ed, After(c, ed, s, events[0]), events[1..])
  }

  // ---------------------------------------------------------------- what every run keeps

  /** The pin is of the log on disk at some earlier moment. */
  ghost predicate PinHonest(s: Session) {
    s.agent.pinnedSize > 0 ==>
      s.disk.log.Some? && s.agent.pinnedSize <= |s.disk.log.value|
      && s.disk.log.value[s.agent.pinnedSize - 1].recordHash == s.agent.pinnedHead
  }

  /** The fetched head is of a log that was on disk. */
  ghost predicate FetchHonest(ed: SignatureCheck, s: Session) {
    s.fetched.Some? ==>
      && s.disk.log.Some? && HeadVerifies(ed, s.agent.logPublicRaw, s.fetched.value)
      && 0 <= s.fetched.value.size <= |s.disk.log.value|
      && s.fetched.value.headHash == Head(s.disk.log.value[..s.fetched.value.size])
  }

  /** Every log that was ever on disk is a prefix of the one that is. */
  ghost predicate PublishedKept(published: seq<Log>, log: Option<Log>) {
    forall i :: 0 <= i < |published| ==> log.Some? && published[i] <= log.value
  }

  /** A head file names a log with a valid chain, published or not. */
  ghost predicate Named(c: KeyCodec, head: HeadFile) {
    exists ahead: Log :: Announces(c, head, ahead)
  }

  ghost predicate HeadsHonest(c: KeyCodec, heads: seq<HeadFile>) {
    forall i :: 0 <= i < |heads| ==> Named(c, heads[i])
  }

  ghost predicate SessionInv(c: KeyCodec, ed: SignatureCheck, s: Session) {
    && Inv(c, s.disk, s.clock) && HeadInv(c, s.disk)
    && PinHonest(s) && FetchHonest(ed, s) && PublishedKept(s.published, s.disk.log) && HeadsHonest(c, s.heads)
  }

  lemma {:induction false} HeadsDuringHonest(c: KeyCodec, disk: Disk, clock: int, op: Op, n: nat)
    requires Inv(c, disk, clock) && Permitted(c, disk, clock, op) && HeadInv(c, disk)
    ensures HeadsHonest(c, HeadsDuring(c, disk, op, n))
  {
    if n > 0 {
      HeadsDuringHonest(c, disk, clock, op, n - 1);
      HeadStep(c, disk, clock, op.(stop := n));
      var head := Step(c, disk, op.(stop := n)).0.head;
      assert head.Some? ==> Named(c, head.value);
      HeadsJoined(c, HeadsDuring(c, disk, op, n - 1), if head.Some? then [head.value] else []);
    }
  }

  /** A longer log keeps what the pin and the fetched head say about it. */
  lemma GrowthKeeps(ed: SignatureCheck, s: Session, disk: Disk)
    requires PinHonest(s) && FetchHonest(ed, s) && PublishedKept(s.published, s.disk.log) && LogGrows(s.disk, disk)
    ensures PinHonest(s.(disk := disk)) && FetchHonest(ed, s.(disk := disk)) && PublishedKept(s.published, disk.log)
  {
    if s.fetched.Some? {
      var size := s.fetched.value.size;
      assert disk.log.value[..size] == s.disk.log.value[..size];
    }
    StillPrefixes(s.published, s.disk.log, disk.log);
  }

  lemma StillPrefixes(published: seq<Log>, before: Option<Log>, after: Option<Log>)
    requires PublishedKept(published, before)
    requires before.Some? ==> after.Some? && before.value <= after.value
    ensures PublishedKept(published, after)
  {
    forall i | 0 <= i < |published|
      ensures after.Some? && published[i] <= after.value
    {
      var seen := published[i];
      assert before.Some? && seen <= before.value <= after.value;
    }
  }

  lemma NextPublished(published: seq<Log>, before: Option<Log>, after: Option<Log>)
    requires PublishedKept(published, before)
    requires before.Some? ==> after.Some? && before.value <= after.value
    ensures PublishedKept(if after.Some? then published + [after.value] else published, after)
  {
    StillPrefixes(published, before, after);
  }

  lemma HeadsJoined(c: KeyCodec, a: seq<HeadFile>, b: seq<HeadFile>)
    requires HeadsHonest(c, a) && HeadsHonest(c, b)
    ensures HeadsHonest(c, a + b)
  {
  }

  lemma MovedKeeps(c: KeyCodec, ed: SignatureCheck, s: Session, disk: Disk, now: int, seen: seq<HeadFile>)
    requires SessionInv(c, ed, s) && LogGrows(s.disk, disk)
    requires Inv(c, disk, now) && HeadInv(c, disk) && HeadsHonest(c, seen)
    ensures SessionInv(c, ed, Moved(s, disk, now, seen))
  {
    GrowthKeeps(ed, s, disk);
    NextPublished(s.published, s.disk.log, disk.log);
    HeadsJoined(c, s.heads, seen);
  }

  lemma ChangeKeeps(c: KeyCodec, ed: SignatureCheck, s: Session, op: Op)
    requires SessionInv(c, ed, s) && Permitted(c, s.disk, s.clock, op)
    ensures SessionInv(c, ed, Changed(c, s, op))
  {
    StepKeepsInv(c, s.disk, s.clock, op);
    HeadStep(c, s.disk, s.clock, op);
    HeadsDuringHonest(c, s.disk, s.clock, op, op.stop);
    MovedKeeps(c, ed, s, Step(c, s.disk, op).0, op.now, HeadsDuring(c, s.disk, op, op.stop));
  }

  /** The fetched log goes through exactly when it still is the log of the fetched head. */
  lemma FetchLogExact(c: KeyCodec, ed: SignatureCheck, s: Session)
    requires SessionInv(c, ed, s) && s.disk.log.Some? && s.fetched.Some?
    ensures Accepts(c.sha, ed, s.agent, Fetched(s, s.fetched.value, s.disk.log.value))
       <==> s.fetched.value.size == |s.disk.log.value|
  {
    assert s.disk.log.value[..|s.disk.log.value|] == s.disk.log.value;
  }

  lemma FetchLogMoves(c: KeyCodec, ed: SignatureCheck, s: Session)
    requires SessionInv(c, ed, s) && s.disk.log.Some? && s.fetched.Some?
    ensures var records := s.disk.log.value;
      AfterSync(c.sha, ed, s.agent, Fetched(s, s.fetched.value, records))
      == if s.fetched.value.size == |records| then s.agent.(pinnedSize := |records|, pinnedHead := Head(records))
         else s.agent
  {
    FetchLogExact(c, ed, s);
  }

  lemma PinMoved(c: KeyCodec, ed: SignatureCheck, s: Session, agent: UAState)
    requires SessionInv(c, ed, s) && s.disk.log.Some?
    requires
      || agent == s.agent
      || agent == s.agent.(pinnedSize := |s.disk.log.value|, pinnedHead := Head(s.disk.log.value))
    ensures SessionInv(c, ed, s.(agent := agent, fetched := None))
  {
    assert PinHonest(s.(agent := agent, fetched := None));
  }

  lemma HeadFetched(c: KeyCodec, ed: SignatureCheck, s: Session, head: SignedHead)
    requires SessionInv(c, ed, s) && HonestHead(ed, s, head)
    ensures SessionInv(c, ed, s.(fetched := Some(head)))
  {
    assert s.disk.log.value[..|s.disk.log.value|] == s.disk.log.value;
    assert FetchHonest(ed, s.(fetched := Some(head)));
  }

  lemma EventKeeps(c: KeyCodec, ed: SignatureCheck, s: Session, e: Event)
    requires SessionInv(c, ed, s) && Allowed(c, ed, s, e)
    ensures SessionInv(c, ed, After(c, ed, s, e))
  {
    match e
    case Change(op) => ChangeKeeps(c, ed, s, op);
    case FetchHead(head) => HeadFetched(c, ed, s, head);
    case FetchLog =>
      FetchLogMoves(c, ed, s);
      PinMoved(c, ed, s, AfterSync(c.sha, ed, s.agent, Fetched(s, s.fetched.value, s.disk.log.value)));
  }

  lemma {:induction false} SessionKeeps(c: KeyCodec, ed: SignatureCheck, s: Session, events: seq<Event>)
    requires SessionInv(c, ed, s) && AllowedRun(c, ed, s, events)
    ensures SessionInv(c, ed, SessionAfter(c, ed, s, events))
    decreases |events|
  {
    if events != [] {
      EventKeeps(c, ed, s, events[0]);
      SessionKeeps(c, ed, After(c, ed, s, events[0]), events[1..]);
    }
  }

  /** A session from the empty directory, with a user agent that knows the log key and has no pin yet. */
  function Opening(start: int, logPublicRaw: Bytes): Session {
    Session(EMPTY_DISK, start, UAState(logPublicRaw, 0, GENESIS_PREV), None, [], [])
  }

  // ---------------------------------------------------------------- synchronising

  /** No operation of a run finishes. */
  ghost predicate NoneFinishes(c: KeyCodec, disk: Disk, ops: seq<Op>)
    requires AllWellFormed(ops)
    decreases |ops|
  {
    ops == [] || (Step(c, disk, ops[0]).1 != Done && NoneFinishes(c, Step(c, disk, ops[0]).0, ops[1..]))
  }

  /** Once there is a log, an operation makes it longer if it finishes and leaves it alone if not. */
  lemma StepGrows(c: KeyCodec, disk: Disk, clock: int, op: Op)
    requires Inv(c, disk, clock) && Permitted(c, disk, clock, op) && disk.log.Some?
    ensures var (next, o) := Step(c, disk, op);
      && next.log.Some? && disk.log.value <= next.log.value
      && if o == Done then |disk.log.value| < |next.log.value| else next.log == disk.log
  {
    if op.Init? {
      InitFiles(c, disk, op);
    } else {
      OpExact(c, disk, op);
      if Target(c, disk, op).Some? {
        TargetExtends(c, disk, clock, op);
        ExtendedGood(c, disk.log.value, Target(c, disk, op).value, clock, op);
      }
    }
  }

  lemma {:induction false} RunGrows(c: KeyCodec, disk: Disk, clock: int, ops: seq<Op>)
    requires Inv(c, disk, clock) && AllWellFormed(ops) && RunPermitted(c, disk, clock, ops) && disk.log.Some?
    ensures var end := Run(c, disk, ops);
      && end.log.Some? && disk.log.value <= end.log.value
      && (NoneFinishes(c, disk, ops) <==> |end.log.value| == |disk.log.value|)
    decreases |ops|
  {
    if ops != [] {
      var next := FirstOfRun(c, disk, clock, ops);
      StepGrows(c, disk, clock, ops[0]);
      StepKeepsInv(c, disk, clock, ops[0]);
      RunGrows(c, next, ops[0].now, ops[1..]);
    }
  }

  /** Synchronising with an honest issuer. The head is fetched after any run of key operations, stopped at
      any write, and of synchronisations, refused or not; the log is fetched after more operations. The
      user agent accepts exactly when none of these in between has finished. */
  lemma SyncExact(c: KeyCodec, ed: SignatureCheck, start: int, logPublicRaw: Bytes, events: seq<Event>,
                  head: SignedHead, between: seq<Op>)
    requires AllowedRun(c, ed, Opening(start, logPublicRaw), events)
    requires HonestHead(ed, SessionAfter(c, ed, Opening(start, logPublicRaw), events), head)
    requires var s := SessionAfter(c, ed, Opening(start, logPublicRaw), events);
      AllWellFormed(between) && RunPermitted(c, s.disk, s.clock, between)
    ensures var s := SessionAfter(c, ed, Opening(start, logPublicRaw), events);
      var served := Run(c, s.disk, between).log;
      && served.Some?
      && (Accepts(c.sha, ed, s.agent, Fetched(s, head, served.value)) <==> NoneFinishes(c, s.disk, between))
  {
    var s := SessionAfter(c, ed, Opening(start, logPublicRaw), events);
    SessionKeeps(c, ed, Opening(start, logPublicRaw), events);
    HeadFetched(c, ed, s, head);
    RunGrows(c, s.disk, s.clock, between);
    RunKeepsInv(c, s.disk, s.clock, between);
    RunHeadInv(c, s.disk, s.clock, between);
    var later := s.(disk := Run(c, s.disk, between), clock := LastClock(s.clock, between), fetched := Some(head));
    GrowthKeeps(ed, s.(fetched := Some(head)), later.disk);
    FetchLogExact(c, ed, later);
  }

  /** In particular nobody is refused when nothing happens between the two requests. */
  lemma NeverRefused(c: KeyCodec, ed: SignatureCheck, start: int, logPublicRaw: Bytes, events: seq<Event>,
                     head: SignedHead)
    requires AllowedRun(c, ed, Opening(start, logPublicRaw), events)
    requires HonestHead(ed, SessionAfter(c, ed, Opening(start, logPublicRaw), events), head)
    ensures var s := SessionAfter(c, ed, Opening(start, logPublicRaw), events);
      Accepts(c.sha, ed, s.agent, Fetched(s, head, s.disk.log.value))
  {
    SyncExact(c, ed, start, logPublicRaw, events, head, []);
  }

  // ---------------------------------------------------------------- gossip

  /** A relying party whose head is that of a log that was on disk at any earlier moment passes the gossip
      check of a user agent that has just synchronised if it is at most fifteen records behind; and, as
      far as heads can be told apart, only then. */
  lemma HonestGossip(c: KeyCodec, ed: SignatureCheck, start: int, logPublicRaw: Bytes, events: seq<Event>, i: nat)
    requires AllowedRun(c, ed, Opening(start, logPublicRaw), events)
    requires i < |SessionAfter(c, ed, Opening(start, logPublicRaw), events).published|
    ensures var s := SessionAfter(c, ed, Opening(start, logPublicRaw), events);
      && s.disk.log.Some?
      && var mine, seen := s.disk.log.value, s.published[i];
         && seen <= mine && ValidChain(c.sha, mine) && ValidChain(c.sha, seen)
         && (|mine| < |seen| + GOSSIP_LAG_TOLERANCE ==> GossipAccepts(mine, Head(seen)))
         && (Telling(c.sha, mine, seen) ==>
             (GossipAccepts(mine, Head(seen)) <==> |mine| < |seen| + GOSSIP_LAG_TOLERANCE))
  {
    var s := SessionAfter(c, ed, Opening(start, logPublicRaw), events);
    SessionKeeps(c, ed, Opening(start, logPublicRaw), events);
    var mine, seen := s.disk.log.value, s.published[i];
    PrefixValid(c.sha, mine, |seen|);
    assert mine[..|seen|] == seen;
    if |mine| < |seen| + GOSSIP_LAG_TOLERANCE { GossipToleratesLag(mine, seen); }
    if Telling(c.sha, mine, seen) { GossipExact(c.sha, mine, seen); }
  }

  /** The head file that a relying party has read at any earlier moment, even between the writes of an
      operation, names a log with a valid chain, and a user agent that has just synchronised accepts it
      exactly when that log has since been published and is at most fifteen records behind. */
  lemma FileGossip(c: KeyCodec, ed: SignatureCheck, start: int, logPublicRaw: Bytes, events: seq<Event>, i: nat)
    returns (named: Log)
    requires AllowedRun(c, ed, Opening(start, logPublicRaw), events)
    requires i < |SessionAfter(c, ed, Opening(start, logPublicRaw), events).heads|
    requires SessionAfter(c, ed, Opening(start, logPublicRaw), events).disk.log.Some?
    ensures var s := SessionAfter(c, ed, Opening(start, logPublicRaw), events);
      var mine, head := s.disk.log.value, s.heads[i];
      && ValidChain(c.sha, mine) && Announces(c, head, named)
      && (RecentPrefix(named, mine) ==> GossipAccepts(mine, head.hash))
      && (Telling(c.sha, mine, named) ==> (GossipAccepts(mine, head.hash) <==> RecentPrefix(named, mine)))
  {
    var s := SessionAfter(c, ed, Opening(start, logPublicRaw), events);
    SessionKeeps(c, ed, Opening(start, logPublicRaw), events);
    assert Named(c, s.heads[i]);
    named :| Announces(c, s.heads[i], named);
    if RecentPrefix(named, s.disk.log.value) { GossipToleratesLag(s.disk.log.value, named); }
    if Telling(c.sha, s.disk.log.value, named) { GossipExact(c.sha, s.disk.log.value, named); }
  }
}
