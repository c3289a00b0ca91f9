/** The public files beside the log. Every publication replaces the head file, the keyset file and the
    log, in this order, and may stop in between; this module says what the first two then hold. */
module PublicFiles {
  import opened Wrappers
  import opened Rsa
  import opened TransLog
  import opened ActiveKeys
  import opened Keys
  import opened Federation
  import opened Lifecycle
  import opened LifecycleRuns
  import opened LogSync

  // ---------------------------------------------------------------- what an operation does to the files

  /** The log that a rotation or revocation sets out to publish; none if it fails before. */
  ghost function Target(c: KeyCodec, disk: Disk, op: Op): Option<Log>
    requires !op.Init?
  {
    if op.Rotate? then RotateTarget(c, disk, op) else RevokeTarget(c, disk, op)
  }

  ghost function RotateTarget(c: KeyCodec, disk: Disk, op: Op): Option<Log>
    requires op.Rotate?
  {
    match ReadyToRotate(c, disk, op.scope, op.now)
    case Err(_) => None
    case Ok(retired) =>
      if op.bits !in ALLOWED_MODULUS_BITS then None
      else
        var longer := Activated(c, retired, NextSlot(disk.log.value, op.scope), op.now, op.validity, op.key);
        if longer.Ok? then Some(longer.value) else None
  }

  ghost function RevokeTarget(c: KeyCodec, disk: Disk, op: Op): Option<Log>
    requires op.Revoke?
  {
    if op.scope !in SCOPES || disk.log.None? || !ValidChain(c.sha, disk.log.value) then None
    else
      var records := disk.log.value;
      var current := ActiveRecordFor(records, op.scope, op.now);
      if current.None? then None
      else
        var longer := Extended(c, records, RevokedBody(records, current.value, op.now));
        if longer.Ok? then Some(longer.value) else None
  }

  /** How many of the three publishing writes an operation gets to: a rotation writes its key before. */
  function Published(op: Op): int
    requires !op.Init?
  {
    if op.Rotate? then op.stop - 1 else op.stop
  }

  /** The disk after the first `n` of the three writes. */
  function PublishedTo(disk: Disk, longer: Log, now: int, n: int): Disk {
    var d1 := if n >= 1 then disk.(head := Some(HeadFile(|longer|, Head(longer), now))) else disk;
    var d2 := if n >= 2 then d1.(keyset := Some(ActiveKeyset(longer, now))) else d1;
    if n >= 3 then d2.(log := Some(longer)) else d2
  }

  lemma PublishExact(disk: Disk, longer: Result<Log, FedError>, now: int, stop: nat)
    ensures var (after, o) := Execute(disk, PublishWith(longer, now), stop);
      && after == (if longer.Ok? then PublishedTo(disk, longer.value, now, stop) else disk)
      && (o == Done <==> longer.Ok? && stop >= 3) && (o == Stopped <==> longer.Ok? && stop < 3)
  {
    if longer.Ok? {
      var steps := Publish(longer.value, now);
      assert steps[..0] == [] && steps[..1] == [steps[0]] && steps[..2] == [steps[0], steps[1]];
      ApplyOne(disk, [], steps[0]);
      ApplyOne(disk, [steps[0]], steps[1]);
      ApplyOne(disk, [steps[0], steps[1]], steps[2]);
      assert [] + [steps[0]] == [steps[0]] && [steps[0]] + [steps[1]] == [steps[0], steps[1]];
      assert [steps[0], steps[1]] + [steps[2]] == steps;
    }
  }

  function Files(disk: Disk): (Option<HeadFile>, Option<seq<ScopeKeyRecord>>, Option<Log>) {
    (disk.head, disk.keyset, disk.log)
  }

  lemma IntroduceExact(disk: Disk, slot: Slot, key: PrivateKey, longer: Result<Log, FedError>, now: int, stop: nat)
    ensures var (after, o) := Execute(disk, After(WritePem(slot, key), PublishWith(longer, now)), stop);
      && (o == Done <==> longer.Ok? && stop >= 4) && (stop > 0 ==> (o == Stopped <==> longer.Ok? && stop < 4))
      && Files(after) == Files(if longer.Ok? then PublishedTo(disk, longer.value, now, stop - 1) else disk)
  {
    ExecuteAfter(disk, WritePem(slot, key), PublishWith(longer, now), stop);
    if stop > 0 {
      PublishExact(ApplyWrite(disk, WritePem(slot, key)), longer, now, stop - 1);
    }
  }

  lemma RotateExact(c: KeyCodec, disk: Disk, op: Op)
    requires op.Rotate?
    ensures var (after, o) := Execute(disk, RotatePlan(c, disk, op.scope, op.now, op.validity, op.bits, op.key),
                                      op.stop);
      var target := RotateTarget(c, disk, op);
      && (o == Done <==> target.Some? && op.stop >= 4)
      && (op.stop > 0 ==> (o == Stopped <==> target.Some? && op.stop < 4))
      && Files(after) == Files(if target.Some? then PublishedTo(disk, target.value, op.now, op.stop - 1) else disk)
  {
    var longer := RotatePlanCases(c, disk, op);
    if longer.Some? {
      IntroduceExact(disk, NextSlot(disk.log.value, op.scope), op.key, longer.value, op.now, op.stop);
    }
  }

  lemma RevokeExact(c: KeyCodec, disk: Disk, op: Op)
    requires op.Revoke?
    ensures var (after, o) := Execute(disk, RevokePlan(c, disk, op.scope, op.now), op.stop);
      var target := RevokeTarget(c, disk, op);
      && (o == Done <==> target.Some? && op.stop >= 3) && (o == Stopped <==> target.Some? && op.stop < 3)
      && after == (if target.Some? then PublishedTo(disk, target.value, op.now, op.stop) else disk)
  {
    if op.scope in SCOPES && disk.log.Some? && ValidChain(c.sha, disk.log.value) {
      var records := disk.log.value;
      var current := ActiveRecordFor(records, op.scope, op.now);
      if current.Some? {
        PublishExact(disk, Extended(c, records, RevokedBody(records, current.value, op.now)), op.now, op.stop);
      }
    }
  }

  /** The three public files after an operation that stopped anywhere. */
  lemma OpExact(c: KeyCodec, disk: Disk, op: Op)
    requires !op.Init?
    ensures var (after, o) := Step(c, disk, op);
      var target := Target(c, disk, op);
      && (o == Done <==> target.Some? && Published(op) >= 3)
      && (Published(op) >= 0 ==> (o == Stopped <==> target.Some? && Published(op) < 3))
      && Files(after) == Files(if target.Some? then PublishedTo(disk, target.value, op.now, Published(op)) else disk)
  {
    if op.Rotate? { RotateExact(c, disk, op); } else { RevokeExact(c, disk, op); }
  }

  /** The log extended by an operation: a rotation with a new key, or a revocation. */
  ghost predicate ExtendedBy(c: KeyCodec, before: Log, after: Log, op: Op) {
    || (op.Rotate? && Rotated(c, before, after, op) && NotLogged(c, before, op.key))
    || (op.Revoke? && RevokedTo(c, before, after, op))
  }

  lemma TargetExtends(c: KeyCodec, disk: Disk, clock: int, op: Op)
    requires !op.Init? && Permitted(c, disk, clock, op) && Target(c, disk, op).Some?
    ensures disk.log.Some? && ExtendedBy(c, disk.log.value, Target(c, disk, op).value, op)
  {
  }

  /** Such a log is strictly longer, good, and differs in the records of one scope. */
  lemma ExtendedGood(c: KeyCodec, before: Log, after: Log, clock: int, op: Op)
    requires clock <= op.now && GoodLog(c, before, clock) && ExtendedBy(c, before, after, op)
    ensures before <= after && |before| < |after| && GoodLog(c, after, op.now) && KeyIdsWellFormed(after)
    ensures forall i :: |before| <= i < |after| ==> after[i].body.scope == op.scope
  {
    if op.Rotate? {
      RotateGood(c, before, after, clock, op);
      RotateScopeOnly(c, before, after, clock, op);
    } else {
      RevokeGood(c, before, after, clock, op);
    }
  }

  // ---------------------------------------------------------------- initialisation

  ghost predicate KeyWritesOnly(steps: seq<Write>) {
    forall i :: 0 <= i < |steps| ==> steps[i].WritePem? || steps[i].WriteSetup?
  }

  lemma {:induction false} KeyWritesKeepFiles(disk: Disk, steps: seq<Write>)
    requires KeyWritesOnly(steps)
    ensures Files(ApplyWrites(disk, steps)) == Files(disk)
  {
    if steps != [] {
      assert forall i :: 0 <= i < |steps| - 1 ==> steps[..|steps| - 1][i] == steps[i];
      KeyWritesKeepFiles(disk, steps[..|steps| - 1]);
    }
  }

  lemma {:induction false} InitKeyWrites(c: KeyCodec, scopes: seq<int>, now: int, validity: int, keys: seq<PrivateKey>,
                                         n: nat)
    requires n <= |scopes| == |keys|
    ensures KeyWritesOnly(InitRecords(c, scopes, now, validity, keys, n).0)
  {
    if n > 0 { InitKeyWrites(c, scopes, now, validity, keys, n - 1); }
  }

  /** What initialisation leaves in the public files: the log first, then its head, then its keyset. */
  ghost predicate FirstFiles(disk: Disk, after: Disk, now: int) {
    || Files(after) == Files(disk)
    || (after.log.Some?
        && (after.head == disk.head || after.head == Some(HeadFile(|after.log.value|, Head(after.log.value), now)))
        && (after.keyset == disk.keyset || after.keyset == Some(ActiveKeyset(after.log.value, now))))
  }

  lemma FinishFiles(disk: Disk, records: Result<Log, FedError>, now: int, stop: nat)
    ensures FirstFiles(disk, Execute(disk, FinishInit(records, now), stop).0, now)
  {
    if records.Ok? {
      var steps := FinishInit(records, now).steps;
      assert steps[..0] == [] && steps[..1] == [steps[0]] && steps[..2] == [steps[0], steps[1]];
      ApplyOne(disk, [], steps[0]);
      ApplyOne(disk, [steps[0]], steps[1]);
      ApplyOne(disk, [steps[0], steps[1]], steps[2]);
      assert [] + [steps[0]] == [steps[0]] && [steps[0]] + [steps[1]] == [steps[0], steps[1]];
      assert [steps[0], steps[1]] + [steps[2]] == steps;
    }
  }

  /** An initialisation that is refused writes setup files at most. */
  lemma InitRefusedFiles(c: KeyCodec, disk: Disk, op: Op)
    requires op.Init? && WellFormed(op) && (disk.log.Some? || op.bits !in ALLOWED_MODULUS_BITS)
    ensures Files(Step(c, disk, op).0) == Files(disk)
    ensures disk.log.Some? ==> Step(c, disk, op).0 == disk
  {
    if disk.log.Some? {
      assert disk == ApplyWrites(disk, []);
    } else {
      KeyWritesKeepFiles(disk, SetupWrites());
      if op.stop < |SETUP_FILES| { KeyWritesKeepFiles(disk, SetupWrites()[..op.stop]); }
    }
  }

  lemma InitFiles(c: KeyCodec, disk: Disk, op: Op)
    requires op.Init? && WellFormed(op)
    ensures FirstFiles(disk, Step(c, disk, op).0, op.now)
    ensures disk.log.Some? ==> Step(c, disk, op).0 == disk
  {
    if disk.log.Some? || op.bits !in ALLOWED_MODULUS_BITS {
      InitRefusedFiles(c, disk, op);
    } else {
      InitCases(c, disk, op.now, op.validity, op.bits, op.keys, op.stop);
      var (steps, records) := InitRecords(c, SCOPES, op.now, op.validity, op.keys, |SCOPES|);
      InitKeyWrites(c, SCOPES, op.now, op.validity, op.keys, |SCOPES|);
      if op.stop < |steps| {
        KeyWritesKeepFiles(disk, steps[..op.stop]);
      } else {
        KeyWritesKeepFiles(disk, steps);
        FinishFiles(ApplyWrites(disk, steps), records, op.now, op.stop - |steps|);
      }
    }
  }

  // ---------------------------------------------------------------- the head file

  /** The head file names this log. */
  ghost predicate Announces(c: KeyCodec, head: HeadFile, ahead: Log) {
    ValidChain(c.sha, ahead) && KeyIdsWellFormed(ahead) && head.size == |ahead| && head.hash == Head(ahead)
  }

  /** The head file, if there is one, names the log on disk or a valid extension of it. */
  ghost predicate HeadInv(c: KeyCodec, disk: Disk) {
    disk.head.Some? ==>
      disk.log.Some? && exists ahead: Log :: disk.log.value <= ahead && Announces(c, disk.head.value, ahead)
  }

  lemma HeadInit(c: KeyCodec, disk: Disk, clock: int, op: Op)
    requires op.Init? && Inv(c, disk, clock) && Permitted(c, disk, clock, op) && HeadInv(c, disk)
    ensures HeadInv(c, Step(c, disk, op).0)
  {
    var next := Step(c, disk, op).0;
    StepKeepsInv(c, disk, clock, op);
    InitFiles(c, disk, op);
    if next.log.Some? && next.head.Some? && next.head != disk.head {
      assert Announces(c, next.head.value, next.log.value);
    }
  }

  lemma HeadChange(c: KeyCodec, disk: Disk, clock: int, op: Op)
    requires !op.Init? && Inv(c, disk, clock) && Permitted(c, disk, clock, op) && HeadInv(c, disk)
    ensures HeadInv(c, Step(c, disk, op).0)
  {
    OpExact(c, disk, op);
    if Target(c, disk, op).Some? {
      var next, target := Step(c, disk, op).0, Target(c, disk, op).value;
      TargetExtends(c, disk, clock, op);
      ExtendedGood(c, disk.log.value, target, clock, op);
      if Published(op) >= 1 { assert Announces(c, next.head.value, target); }
    }
  }

  lemma HeadStep(c: KeyCodec, disk: Disk, clock: int, op: Op)
    requires Inv(c, disk, clock) && Permitted(c, disk, clock, op) && HeadInv(c, disk)
    ensures HeadInv(c, Step(c, disk, op).0)
  {
    if op.Init? { HeadInit(c, disk, clock, op); } else { HeadChange(c, disk, clock, op); }
  }

  lemma {:induction false} RunHeadInv(c: KeyCodec, disk: Disk, clock: int, ops: seq<Op>)
    requires Inv(c, disk, clock) && AllWellFormed(ops) && RunPermitted(c, disk, clock, ops) && HeadInv(c, disk)
    ensures HeadInv(c, Run(c, disk, ops))
    decreases |ops|
  {
    if ops != [] {
      HeadStep(c, disk, clock, ops[0]);
      StepKeepsInv(c, disk, clock, ops[0]);
      var next := FirstOfRun(c, disk, clock, ops);
      RunHeadInv(c, next, ops[0].now, ops[1..]);
    }
  }

  /** What a user agent that holds `mine` makes of a head file that names an extension of it. */
  lemma AheadGossip(c: KeyCodec, mine: Log, ahead: Log, head: HeadFile)
    requires ValidChain(c.sha, mine) && KeyIdsWellFormed(mine) && mine <= ahead && Announces(c, head, ahead)
    ensures head.size <= |mine| ==> GossipAccepts(mine, head.hash)
    ensures Telling(c.sha, mine, ahead) ==> (GossipAccepts(mine, head.hash) <==> head.size <= |mine|)
  {
    if head.size <= |mine| {
      assert ahead == mine;
      GossipToleratesLag(mine, ahead);
    } else if Telling(c.sha, mine, ahead) {
      GossipExact(c.sha, mine, ahead);
    }
  }

  /** The head file after any run from the empty directory, read by a relying party and gossiped to a user
      agent that has just synchronised: it is accepted exactly when it is not longer than the log, as far
      as heads can be told apart. Otherwise a publication has stopped after its first write, and the
      user agent aborts although nobody equivocates. */
  lemma HeadFileExact(c: KeyCodec, start: int, ops: seq<Op>) returns (ahead: Log)
    requires History(c, start, ops) && Run(c, EMPTY_DISK, ops).head.Some?
    ensures var disk := Run(c, EMPTY_DISK, ops);
      && disk.log.Some? && ValidChain(c.sha, disk.log.value)
      && disk.log.value <= ahead && Announces(c, disk.head.value, ahead)
      && (disk.head.value.size <= |disk.log.value| ==> GossipAccepts(disk.log.value, disk.head.value.hash))
      && (Telling(c.sha, disk.log.value, ahead) ==>
            (GossipAccepts(disk.log.value, disk.head.value.hash) <==> disk.head.value.size <= |disk.log.value|))
  {
    var disk := Run(c, EMPTY_DISK, ops);
    RunHeadInv(c, EMPTY_DISK, start, ops);
    ReachableInv(c, start, ops);
    ahead :| disk.log.value <= ahead && Announces(c, disk.head.value, ahead);
    AheadGossip(c, disk.log.value, ahead, disk.head.value);
  }

  /** Such a run: a revocation or rotation that stops after it has replaced the head file and before it
      has replaced the log leaves a head that no synchronised user agent accepts. */
  lemma StoppedAfterHead(c: KeyCodec, disk: Disk, clock: int, op: Op)
    requires !op.Init? && Inv(c, disk, clock) && Permitted(c, disk, clock, op)
    requires Target(c, disk, op).Some? && 1 <= Published(op) < 3
    ensures var next, target := Step(c, disk, op).0, Target(c, disk, op).value;
      && disk.log.Some? && next.log == disk.log && |target| > |disk.log.value|
      && next.head == Some(HeadFile(|target|, Head(target), op.now))
      && ValidChain(c.sha, disk.log.value) && ValidChain(c.sha, target)
      && (Telling(c.sha, disk.log.value, target) ==> !GossipAccepts(disk.log.value, next.head.value.hash))
  {
    OpExact(c, disk, op);
    TargetExtends(c, disk, clock, op);
    var target := Target(c, disk, op).value;
    ExtendedGood(c, disk.log.value, target, clock, op);
    AheadGossip(c, disk.log.value, target, Step(c, disk, op).0.head.value);
  }

  // ---------------------------------------------------------------- the keyset file

  /** The operation whose publication stopped between the keyset and the log, if the keyset file is its:
      an operation that stops after two of its three public files sets this, one that finishes clears it. */
  ghost function TearAfter(c: KeyCodec, disk: Disk, op: Op, tear: Option<Op>): Option<Op>
    requires WellFormed(op)
  {
    if op.Init? then tear
    else match Step(c, disk, op).1
      case Done => None
      case Stopped => if Published(op) == 2 then Some(op) else tear
      case Failed(_) => tear
  }

  ghost function TearOf(c: KeyCodec, disk: Disk, ops: seq<Op>, tear: Option<Op>): Option<Op>
    requires AllWellFormed(ops)
    decreases |ops|
  {
    if ops == [] then tear else TearOf(c, Step(c, disk, ops[0]).0, ops[1..], TearAfter(c, disk, ops[0], tear))
  }

  /** The keyset file is the projection, at a time `p` since `from`, of the log on disk, or of that log as
      the torn operation has extended it. */
  ghost predicate FileOf(c: KeyCodec, disk: Disk, from: int, clock: int, tear: Option<Op>, ahead: Log, p: int) {
    && disk.log.Some? && from <= p <= clock && GoodLog(c, disk.log.value, p) && GoodLog(c, ahead, p)
    && disk.keyset == Some(ActiveKeyset(ahead, p))
    && match tear
       case None => ahead == disk.log.value
       case Some(op) => p == op.now && ExtendedBy(c, disk.log.value, ahead, op)
  }

  ghost predicate KeysetInv(c: KeyCodec, disk: Disk, from: int, clock: int, tear: Option<Op>) {
    && (disk.log.None? ==> disk.keyset.None? && tear.None?)
    && (tear.Some? ==> disk.keyset.Some?)
    && (disk.keyset.Some? ==> exists ahead: Log, p: int :: FileOf(c, disk, from, clock, tear, ahead, p))
  }

  lemma KeysetInit(c: KeyCodec, disk: Disk, from: int, clock: int, op: Op, tear: Option<Op>)
    requires op.Init? && Inv(c, disk, clock) && Permitted(c, disk, clock, op) && KeysetInv(c, disk, from, clock, tear)
    requires from <= clock
    ensures KeysetInv(c, Step(c, disk, op).0, from, op.now, tear)
    ensures disk.keyset.Some? ==> Step(c, disk, op).0.keyset.Some?
  {
    var next := Step(c, disk, op).0;
    StepKeepsInv(c, disk, clock, op);
    InitFiles(c, disk, op);
    if Files(next) == Files(disk) {
      KeysetLater(c, disk, next, from, clock, op.now, tear);
    } else if next.keyset.Some? {
      assert FileOf(c, next, from, op.now, None, next.log.value, op.now);
    }
  }

  /** An operation that touches neither the keyset file nor the log leaves the file what it was. */
  lemma KeysetLater(c: KeyCodec, disk: Disk, next: Disk, from: int, clock: int, now: int, tear: Option<Op>)
    requires KeysetInv(c, disk, from, clock, tear) && next.log == disk.log && next.keyset == disk.keyset && clock <= now
    ensures KeysetInv(c, next, from, now, tear)
  {
    if disk.keyset.Some? {
      var ahead, p :| FileOf(c, disk, from, clock, tear, ahead, p);
      assert FileOf(c, next, from, now, tear, ahead, p);
    }
  }

  lemma KeysetReplaced(c: KeyCodec, disk: Disk, next: Disk, from: int, clock: int, op: Op, target: Log)
    requires !op.Init? && Inv(c, disk, clock) && Permitted(c, disk, clock, op) && from <= clock
    requires Target(c, disk, op) == Some(target) && Published(op) >= 2
    requires Files(next) == Files(PublishedTo(disk, target, op.now, Published(op)))
    ensures KeysetInv(c, next, from, op.now, if Published(op) == 2 then Some(op) else None)
    ensures next.keyset.Some? && (Published(op) > 2 ==> KeysetInv(c, next, op.now, op.now, None))
  {
    TargetExtends(c, disk, clock, op);
    ExtendedGood(c, disk.log.value, target, clock, op);
    GoodLater(c, disk.log.value, clock, op.now);
    assert FileOf(c, next, op.now, op.now, if Published(op) == 2 then Some(op) else None, target, op.now);
    assert FileOf(c, next, from, op.now, if Published(op) == 2 then Some(op) else None, target, op.now);
  }

  lemma KeysetChange(c: KeyCodec, disk: Disk, from: int, clock: int, op: Op, tear: Option<Op>)
    requires !op.Init? && Inv(c, disk, clock) && Permitted(c, disk, clock, op) && KeysetInv(c, disk, from, clock, tear)
    requires from <= clock
    ensures KeysetInv(c, Step(c, disk, op).0, from, op.now, TearAfter(c, disk, op, tear))
    ensures disk.keyset.Some? ==> Step(c, disk, op).0.keyset.Some?
  {
    var next := Step(c, disk, op).0;
    OpExact(c, disk, op);
    if Target(c, disk, op).None? || Published(op) < 2 {
      KeysetLater(c, disk, next, from, clock, op.now, tear);
    } else {
      KeysetReplaced(c, disk, next, from, clock, op, Target(c, disk, op).value);
    }
  }

  lemma {:induction false} RunKeysetInv(c: KeyCodec, disk: Disk, from: int, clock: int, ops: seq<Op>, tear: Option<Op>)
    requires Inv(c, disk, clock) && AllWellFormed(ops) && RunPermitted(c, disk, clock, ops)
    requires KeysetInv(c, disk, from, clock, tear) && from <= clock
    ensures KeysetInv(c, Run(c, disk, ops), from, LastClock(clock, ops), TearOf(c, disk, ops, tear))
    ensures disk.keyset.Some? ==> Run(c, disk, ops).keyset.Some?
    decreases |ops|
  {
    if ops != [] {
      if ops[0].Init? {
        KeysetInit(c, disk, from, clock, ops[0], tear);
      } else {
        KeysetChange(c, disk, from, clock, ops[0], tear);
      }
      StepKeepsInv(c, disk, clock, ops[0]);
      var next := FirstOfRun(c, disk, clock, ops);
      var tear' := TearAfter(c, disk, ops[0], tear);
      assert TearOf(c, disk, ops, tear) == TearOf(c, next, ops[1..], tear');
      RunKeysetInv(c, next, from, ops[0].now, ops[1..], tear');
    }
  }

  /** The operation, if any, that has torn the keyset file from the log in a run from the empty directory. */
  ghost function Torn(c: KeyCodec, ops: seq<Op>): Option<Op>
    requires AllWellFormed(ops)
  {
    TearOf(c, EMPTY_DISK, ops, None)
  }

  /** What a relying party reads: a missing keyset file is an empty keyset. */
  function PinnedKeys(disk: Disk): seq<ScopeKeyRecord> {
    if disk.keyset.Some? then disk.keyset.value else []
  }

  /** The keyset file may be relied on for this scope. */
  ghost predicate Serves(disk: Disk, tear: Option<Op>, scope: int) {
    disk.keyset.Some? && (tear.Some? && !tear.value.Init? ==> tear.value.scope != scope)
  }

  /** Outside the torn operation's scope, the extended log has the same active key. */
  lemma OtherScopesAgree(c: KeyCodec, disk: Disk, from: int, clock: int, tear: Option<Op>, ahead: Log, p: int,
                         scope: int, t: int)
    requires FileOf(c, disk, from, clock, tear, ahead, p) && Serves(disk, tear, scope)
    ensures ActiveRecordFor(ahead, scope, t) == ActiveRecordFor(disk.log.value, scope, t)
  {
    if tear.Some? {
      ExtendedGood(c, disk.log.value, ahead, p, tear.value);
      LatestIgnoresOthers(disk.log.value, ahead, scope);
    }
  }

  /** A projected keyset has an entry of a scope exactly when the scope has an active key. */
  lemma KeysetHasScope(records: Log, scope: int, p: int)
    ensures (exists entry :: entry in ActiveKeyset(records, p) && entry.scope == scope)
       <==> scope in SCOPES && ActiveRecordFor(records, scope, p).Some?
  {
    forall entry
      ensures entry in ActiveKeyset(records, p) <==> exists s :: s in SCOPES && EntryOf(records, s, p, entry)
    {
      KeysetExact(records, SCOPES, p, entry);
    }
    forall s | ActiveRecordFor(records, s, p).Some?
      ensures ActiveRecordFor(records, s, p).value.body.scope == s
    {
      ActiveRecordExact(records, s, p);
    }
    var r := ActiveRecordFor(records, scope, p);
    if scope in SCOPES && r.Some? {
      assert EntryOf(records, scope, p, ToScopeKeyRecord(r.value));
    }
  }
}
