/** Whole runs of the key lifecycle from an empty directory, and what the issuer and the relying
    parties can rely on in every state such a run reaches. */
module LifecycleRuns {
  import opened Wrappers
  import opened Rsa
  import opened TransLog
  import opened ActiveKeys
  import opened Keys
  import opened Federation
  import opened Lifecycle

  // ---------------------------------------------------------------- initialisation

  /** A partly built first log: one record of epoch one for each of the first scopes. */
  ghost predicate FirstRecords(c: KeyCodec, scopes: seq<int>, keys: seq<PrivateKey>, records: Log)
    requires |scopes| == |keys|
  {
    && |records| <= |scopes|
    && forall i :: 0 <= i < |records| ==>
         records[i].body.scope == scopes[i] && records[i].body.epoch == 1
         && records[i].body.keyId == KeyIdOf(c, keys[i].Public())
         && records[i].body.spki == (c.encode)(keys[i].Public())
  }

  ghost predicate DistinctScopes(scopes: seq<int>) {
    forall i, j :: 0 <= i < j < |scopes| ==> scopes[i] != scopes[j]
  }

  lemma NoRecordsGood(c: KeyCodec, scopes: seq<int>, keys: seq<PrivateKey>, now: int)
    requires |scopes| == |keys|
    ensures FirstRecords(c, scopes, keys, []) && GoodLog(c, [], now)
  {
  }

  lemma FirstKeyGood(c: KeyCodec, scopes: seq<int>, now: int, validity: int, keys: seq<PrivateKey>, before: Log)
    returns (longer: Log)
    requires |scopes| == |keys| && DistinctScopes(scopes) && DistinctKeyIds(c, keys)
    requires FirstRecords(c, scopes, keys, before) && |before| < |scopes| && GoodLog(c, before, now)
    requires Extended(c, before, FreshBody(c, before, scopes[|before|], 1, now, validity, keys[|before|])).Ok?
    ensures Extended(c, before, FreshBody(c, before, scopes[|before|], 1, now, validity, keys[|before|])) == Ok(longer)
    ensures |longer| == |before| + 1 && FirstRecords(c, scopes, keys, longer) && GoodLog(c, longer, now)
  {
    var n := |before|;
    var body := FreshBody(c, before, scopes[n], 1, now, validity, keys[n]);
    forall i | 0 <= i < n
      ensures before[i].body.keyId != body.keyId && before[i].body.scope != body.scope
    {
    }
    OpenKey(c, before, now, body);
    longer := Extended(c, before, body).value;
  }

  /** The first log after `n` scopes, if it gets that far. */
  ghost predicate GoodAfter(c: KeyCodec, scopes: seq<int>, now: int, validity: int, keys: seq<PrivateKey>, n: nat)
    requires n <= |scopes| == |keys|
  {
    var records := InitRecords(c, scopes, now, validity, keys, n).1;
    records.Ok? ==>
      |records.value| == n && FirstRecords(c, scopes, keys, records.value) && GoodLog(c, records.value, now)
  }

  lemma OneScopeMore(c: KeyCodec, scopes: seq<int>, now: int, validity: int, keys: seq<PrivateKey>, n: nat)
    requires 0 < n <= |scopes| == |keys| && DistinctScopes(scopes) && DistinctKeyIds(c, keys)
    requires GoodAfter(c, scopes, now, validity, keys, n - 1)
    ensures GoodAfter(c, scopes, now, validity, keys, n)
  {
    if InitRecords(c, scopes, now, validity, keys, n).1.Ok? {
      var longer := FirstKeyGood(c, scopes, now, validity, keys,
                                 InitRecords(c, scopes, now, validity, keys, n - 1).1.value);
    }
  }

  lemma {:induction false} InitGood(c: KeyCodec, scopes: seq<int>, now: int, validity: int, keys: seq<PrivateKey>,
                                    n: nat)
    requires n <= |scopes| == |keys| && DistinctScopes(scopes) && DistinctKeyIds(c, keys)
    ensures GoodAfter(c, scopes, now, validity, keys, n)
  {
    if n == 0 {
      NoRecordsGood(c, scopes, keys, now);
    } else {
      InitGood(c, scopes, now, validity, keys, n - 1);
      OneScopeMore(c, scopes, now, validity, keys, n);
    }
  }

  ghost predicate PemsOnFile(pems: KeyStore, scopes: seq<int>, keys: seq<PrivateKey>, n: nat)
    requires n <= |scopes| == |keys|
  {
    forall i :: 0 <= i < n ==> (scopes[i], 1) in pems && pems[(scopes[i], 1)] == keys[i]
  }

  lemma {:induction false} InitPems(c: KeyCodec, disk: Disk, scopes: seq<int>, now: int, validity: int,
                                    keys: seq<PrivateKey>, n: nat)
    requires n <= |scopes| == |keys| && DistinctScopes(scopes)
    requires InitRecords(c, scopes, now, validity, keys, n).1.Ok?
    ensures PemsOnFile(ApplyWrites(disk, InitRecords(c, scopes, now, validity, keys, n).0).pems, scopes, keys, n)
  {
    if n > 0 {
      InitPems(c, disk, scopes, now, validity, keys, n - 1);
      var steps := InitRecords(c, scopes, now, validity, keys, n - 1).0;
      ApplyOne(disk, steps, WritePem((scopes[n - 1], 1), keys[n - 1]));
      OneMorePem(ApplyWrites(disk, steps).pems, scopes, keys, n);
    }
  }

  lemma OneMorePem(pems: KeyStore, scopes: seq<int>, keys: seq<PrivateKey>, n: nat)
    requires 0 < n <= |scopes| == |keys| && DistinctScopes(scopes) && PemsOnFile(pems, scopes, keys, n - 1)
    ensures PemsOnFile(pems[(scopes[n - 1], 1) := keys[n - 1]], scopes, keys, n)
  {
  }

  ghost predicate NoLogYet(steps: seq<Write>) {
    forall i :: 0 <= i < |steps| ==> !steps[i].WriteLog?
  }

  /** Only key files are written before the first log. */
  lemma {:induction false} InitStepsAreKeys(c: KeyCodec, scopes: seq<int>, now: int, validity: int,
                                            keys: seq<PrivateKey>, n: nat)
    requires n <= |scopes| == |keys|
    ensures NoLogYet(InitRecords(c, scopes, now, validity, keys, n).0)
  {
    if n > 0 {
      InitStepsAreKeys(c, scopes, now, validity, keys, n - 1);
    }
  }

  lemma FinishEffect(disk: Disk, records: Result<Log, FedError>, now: int, stop: nat)
    ensures var after := Execute(disk, FinishInit(records, now), stop).0;
      after.pems == disk.pems && (after.log == disk.log || (records.Ok? && after.log == Some(records.value)))
  {
    if records.Ok? {
      var log := records.value;
      FirstFilesEffect(disk, log, HeadFile(|log|, Head(log), now), ActiveKeyset(log, now), stop);
    }
  }

  lemma FirstFilesEffect(disk: Disk, log: Log, head: HeadFile, keyset: seq<ScopeKeyRecord>, stop: nat)
    ensures var after := Execute(disk, Plan([WriteLog(log), WriteHead(head), WriteKeyset(keyset)], None), stop).0;
      after.pems == disk.pems && (after.log == disk.log || after.log == Some(log))
  {
    var first, rest := [WriteLog(log)], [WriteHead(head), WriteKeyset(keyset)];
    assert first + rest == [WriteLog(log), WriteHead(head), WriteKeyset(keyset)];
    if stop > 0 {
      ApplyAfter(disk, first, Plan(rest, None), stop);
      ApplyOne(disk, [], WriteLog(log));
      assert [] + first == first;
      WritesOutside(ApplyWrites(disk, first), rest);
      if stop < 3 { WritesOutside(ApplyWrites(disk, first), rest[..stop - 1]); }
    }
  }

  /** Refused sizes come to nothing: only the setup files are written. */
  lemma InitBadSize(c: KeyCodec, disk: Disk, op: Op)
    requires op.Init? && WellFormed(op) && disk.log.None? && op.bits !in ALLOWED_MODULUS_BITS
    ensures Execute(disk, InitPlan(c, disk, op.now, op.validity, op.bits, op.keys), op.stop).0.log.None?
  {
    WritesOutside(disk, SetupWrites());
    if op.stop < |SETUP_FILES| { WritesOutside(disk, SetupWrites()[..op.stop]); }
  }

  /** Initialising an empty directory: no log yet, or the complete first log with all its keys on file. */
  lemma InitEffect(c: KeyCodec, disk: Disk, op: Op)
    requires op.Init? && WellFormed(op) && disk.log.None?
    ensures var (steps, records) := InitRecords(c, SCOPES, op.now, op.validity, op.keys, |SCOPES|);
      var after := Execute(disk, InitPlan(c, disk, op.now, op.validity, op.bits, op.keys), op.stop).0;
      || after.log.None?
      || (records.Ok? && after.log == Some(records.value) && after.pems == ApplyWrites(disk, steps).pems)
  {
    if op.bits !in ALLOWED_MODULUS_BITS {
      InitBadSize(c, disk, op);
    } else {
      var (steps, records) := InitRecords(c, SCOPES, op.now, op.validity, op.keys, |SCOPES|);
      InitCases(c, disk, op.now, op.validity, op.bits, op.keys, op.stop);
      InitStepsAreKeys(c, SCOPES, op.now, op.validity, op.keys, |SCOPES|);
      if op.stop < |steps| {
        WritesOutside(disk, steps[..op.stop]);
      } else {
        WritesOutside(disk, steps);
        FinishEffect(ApplyWrites(disk, steps), records, op.now, op.stop - |steps|);
      }
    }
  }

  lemma InitStateGood(c: KeyCodec, disk: Disk, now: int, validity: int, keys: seq<PrivateKey>)
    requires |keys| == |SCOPES| && DistinctKeyIds(c, keys)
    requires InitRecords(c, SCOPES, now, validity, keys, |SCOPES|).1.Ok?
    ensures var (steps, records) := InitRecords(c, SCOPES, now, validity, keys, |SCOPES|);
      GoodLog(c, records.value, now) && StoreMatches(c, records.value, ApplyWrites(disk, steps).pems)
  {
    InitGood(c, SCOPES, now, validity, keys, |SCOPES|);
    InitPems(c, disk, SCOPES, now, validity, keys, |SCOPES|);
  }

  lemma InitKeepsInv(c: KeyCodec, disk: Disk, clock: int, op: Op)
    requires op.Init? && Inv(c, disk, clock) && Permitted(c, disk, clock, op)
    ensures Inv(c, Step(c, disk, op).0, op.now) && LogGrows(disk, Step(c, disk, op).0)
  {
    if disk.log.Some? {
      GoodLater(c, disk.log.value, clock, op.now);
    } else {
      InitEffect(c, disk, op);
      if Step(c, disk, op).0.log.Some? {
        InitStateGood(c, disk, op.now, op.validity, op.keys);
      }
    }
  }

  // ---------------------------------------------------------------- runs

  lemma StepKeepsInv(c: KeyCodec, disk: Disk, clock: int, op: Op)
    requires Inv(c, disk, clock) && Permitted(c, disk, clock, op)
    ensures Inv(c, Step(c, disk, op).0, op.now) && LogGrows(disk, Step(c, disk, op).0)
  {
    match op
    case Init(_, _, _, _, _) => InitKeepsInv(c, disk, clock, op);
    case Rotate(_, _, _, _, _, _) => RotateKeepsInv(c, disk, clock, op);
    case Revoke(_, _, _) => RevokeKeepsInv(c, disk, clock, op);
  }

  ghost predicate AllWellFormed(ops: seq<Op>) {
    forall i :: 0 <= i < |ops| ==> WellFormed(ops[i])
  }

  /** A run is its first operation and then the rest. */
  lemma FirstOfRun(c: KeyCodec, disk: Disk, clock: int, ops: seq<Op>) returns (next: Disk)
    requires ops != [] && AllWellFormed(ops) && RunPermitted(c, disk, clock, ops)
    ensures Permitted(c, disk, clock, ops[0]) && next == Step(c, disk, ops[0]).0
    ensures AllWellFormed(ops[1..]) && RunPermitted(c, next, ops[0].now, ops[1..])
    ensures Run(c, disk, ops) == Run(c, next, ops[1..]) && LastClock(clock, ops) == LastClock(ops[0].now, ops[1..])
  {
    next := Step(c, disk, ops[0]).0;
  }

  /** Every run, with operations stopping anywhere, keeps the invariant and only ever appends to the log. */
  lemma {:induction false} RunKeepsInv(c: KeyCodec, disk: Disk, clock: int, ops: seq<Op>)
    requires Inv(c, disk, clock) && AllWellFormed(ops) && RunPermitted(c, disk, clock, ops)
    ensures Inv(c, Run(c, disk, ops), LastClock(clock, ops)) && clock <= LastClock(clock, ops)
    ensures LogGrows(disk, Run(c, disk, ops))
    decreases |ops|
  {
    if ops != [] {
      var next := FirstOfRun(c, disk, clock, ops);
      StepKeepsInv(c, disk, clock, ops[0]);
      RunKeepsInv(c, next, ops[0].now, ops[1..]);
      if disk.log.Some? {
        assert disk.log.value <= next.log.value <= Run(c, next, ops[1..]).log.value;
      }
    }
  }

  // ---------------------------------------------------------------- one usable key per scope

  /** In every reachable state each scope has at most one usable key, now or at any later time. */
  lemma KeyUnique(c: KeyCodec, disk: Disk, clock: int, t: int, scope: int, i: int, j: int)
    requires Inv(c, disk, clock) && disk.log.Some? && clock <= t
    requires Candidate(disk.log.value, scope, t, i) && Candidate(disk.log.value, scope, t, j)
    ensures i == j
  {
    OneLiveKey(c, disk.log.value, clock, i, j);
  }

  /** The usable record of a scope, when all usable ones are a given one. */
  lemma OnlyCandidate(records: Log, scope: int, t: int, k: int)
    requires 0 <= k < |records|
    requires forall i :: Candidate(records, scope, t, i) ==> i == k
    ensures ActiveRecordFor(records, scope, t) == if Candidate(records, scope, t, k) then Some(records[k]) else None
  {
    ActiveRecordExact(records, scope, t);
  }

  /** In the log of a finished rotation the new key is the scope's key until it expires, and then none is. */
  lemma RotatedActive(c: KeyCodec, before: Log, after: Log, clock: int, op: Op, t: int)
    requires op.Rotate? && clock <= op.now <= t && GoodLog(c, before, clock) && NotLogged(c, before, op.key)
    requires Rotated(c, before, after, op)
    ensures after != []
    ensures var newest := after[|after| - 1];
      && newest.body.keyId == KeyIdOf(c, op.key.Public())
      && ActiveRecordFor(after, op.scope, t) == if t <= op.now + op.validity then Some(newest) else None
  {
    RotateGood(c, before, after, clock, op);
    var k := |after| - 1;
    forall i | Candidate(after, op.scope, t, i)
      ensures i == k
    {
      CandidateIsLive(c, after, op.now, op.scope, t, i);
    }
    OnlyCandidate(after, op.scope, t, k);
  }

  /** After a finished rotation the new key is the scope's key until it expires, and then none is. */
  lemma RotationTakesOver(c: KeyCodec, disk: Disk, clock: int, op: Op, t: int)
    requires op.Rotate? && Inv(c, disk, clock) && Permitted(c, disk, clock, op)
    requires Step(c, disk, op).1 == Done && op.now <= t
    ensures var next := Step(c, disk, op).0;
      && next.log.Some? && next.log.value != []
      && var newest := next.log.value[|next.log.value| - 1];
         && newest.body.keyId == KeyIdOf(c, op.key.Public())
         && ActiveRecordFor(next.log.value, op.scope, t) == if t <= op.now + op.validity then Some(newest) else None
  {
    RotateEffect(c, disk, op);
    RotatedActive(c, disk.log.value, Step(c, disk, op).0.log.value, clock, op, t);
  }

  /** In the log of a finished revocation the scope has no usable key. */
  lemma RevokedActive(c: KeyCodec, before: Log, after: Log, clock: int, op: Op, t: int)
    requires op.Revoke? && clock <= op.now <= t && GoodLog(c, before, clock) && RevokedTo(c, before, after, op)
    ensures ActiveRecordFor(after, op.scope, t) == None
  {
    RevokeGood(c, before, after, clock, op);
    ActiveRecordExact(after, op.scope, t);
    forall i
      ensures !Candidate(after, op.scope, t, i)
    {
      CandidateIsLive(c, after, op.now, op.scope, t, i);
    }
  }

  /** After a finished revocation the scope has no usable key. */
  lemma RevocationTakesAway(c: KeyCodec, disk: Disk, clock: int, op: Op, t: int)
    requires op.Revoke? && Inv(c, disk, clock) && Permitted(c, disk, clock, op)
    requires Step(c, disk, op).1 == Done && op.now <= t
    ensures Step(c, disk, op).0.log.Some?
    ensures ActiveRecordFor(Step(c, disk, op).0.log.value, op.scope, t) == None
  {
    RevokeEffect(c, disk, op);
    RevokedActive(c, disk.log.value, Step(c, disk, op).0.log.value, clock, op, t);
  }

  // ---------------------------------------------------------------- other operations leave a scope alone

  lemma {:induction false} LatestIgnoresOthers(before: Log, after: Log, scope: int)
    requires before <= after
    requires forall i :: |before| <= i < |after| ==> after[i].body.scope != scope
    ensures LatestByKey(after, scope) == LatestByKey(before, scope)
    decreases |after|
  {
    if |after| > |before| {
      LatestIgnoresOthers(before, after[..|after| - 1], scope);
    } else {
      assert after == before;
    }
  }

  /** A step does not concern a scope if it rotates or revokes another one, or does not finish. */
  ghost predicate Elsewhere(c: KeyCodec, disk: Disk, op: Op, scope: int)
    requires WellFormed(op)
  {
    op.Init? || op.scope != scope || Step(c, disk, op).1 != Done
  }

  lemma ElsewhereKeeps(c: KeyCodec, disk: Disk, clock: int, op: Op, scope: int, t: int)
    requires Inv(c, disk, clock) && Permitted(c, disk, clock, op) && disk.log.Some? && Elsewhere(c, disk, op, scope)
    ensures Step(c, disk, op).0.log.Some?
    ensures ActiveRecordFor(Step(c, disk, op).0.log.value, scope, t) == ActiveRecordFor(disk.log.value, scope, t)
  {
    var before := disk.log.value;
    var (next, o) := Step(c, disk, op);
    StepKeepsInv(c, disk, clock, op);
    if op.Rotate? {
      RotateEffect(c, disk, op);
      if o == Done {
        RotateGood(c, before, next.log.value, clock, op);
        RotateScopeOnly(c, before, next.log.value, clock, op);
        LatestIgnoresOthers(before, next.log.value, scope);
      }
    } else if op.Revoke? {
      RevokeEffect(c, disk, op);
      if o == Done {
        RevokeGood(c, before, next.log.value, clock, op);
        LatestIgnoresOthers(before, next.log.value, scope);
      }
    }
  }

  lemma RotateScopeOnly(c: KeyCodec, before: Log, after: Log, clock: int, op: Op)
    requires op.Rotate? && clock <= op.now && GoodLog(c, before, clock) && Rotated(c, before, after, op)
    ensures forall i :: |before| <= i < |after| ==> after[i].body.scope == op.scope
  {
    var k := FoundIsLive(c, before, clock, op.scope, op.now);
  }

  ghost predicate RunElsewhere(c: KeyCodec, disk: Disk, ops: seq<Op>, scope: int)
    requires AllWellFormed(ops)
    decreases |ops|
  {
    ops == [] || (Elsewhere(c, disk, ops[0], scope) && RunElsewhere(c, Step(c, disk, ops[0]).0, ops[1..], scope))
  }

  lemma {:induction false} RunElsewhereKeeps(c: KeyCodec, disk: Disk, clock: int, ops: seq<Op>, scope: int, t: int)
    requires Inv(c, disk, clock) && AllWellFormed(ops) && RunPermitted(c, disk, clock, ops)
    requires disk.log.Some? && RunElsewhere(c, disk, ops, scope)
    ensures Run(c, disk, ops).log.Some?
    ensures ActiveRecordFor(Run(c, disk, ops).log.value, scope, t) == ActiveRecordFor(disk.log.value, scope, t)
    decreases |ops|
  {
    if ops != [] {
      ElsewhereKeeps(c, disk, clock, ops[0], scope, t);
      StepKeepsInv(c, disk, clock, ops[0]);
      var next := FirstOfRun(c, disk, clock, ops);
      RunElsewhereKeeps(c, next, ops[0].now, ops[1..], scope, t);
    }
  }

  /** From a finished rotation until its key expires the scope has exactly that key, and after the
      expiry none, whatever happens elsewhere and whatever stops halfway in the meantime. */
  lemma RotationLasts(c: KeyCodec, disk: Disk, clock: int, op: Op, later: seq<Op>, t: int)
    requires op.Rotate? && Inv(c, disk, clock) && Permitted(c, disk, clock, op) && Step(c, disk, op).1 == Done
    requires AllWellFormed(later) && RunPermitted(c, Step(c, disk, op).0, op.now, later)
    requires RunElsewhere(c, Step(c, disk, op).0, later, op.scope) && op.now <= t
    ensures var end := Run(c, Step(c, disk, op).0, later);
      && end.log.Some?
      && var active := ActiveRecordFor(end.log.value, op.scope, t);
         && (active.Some? <==> t <= op.now + op.validity)
         && (active.Some? ==> active.value.body.keyId == KeyIdOf(c, op.key.Public()))
  {
    RotationTakesOver(c, disk, clock, op, t);
    StepKeepsInv(c, disk, clock, op);
    RunElsewhereKeeps(c, Step(c, disk, op).0, op.now, later, op.scope, t);
  }

  /** From a finished revocation the scope has no key until it is next rotated. */
  lemma RevocationLasts(c: KeyCodec, disk: Disk, clock: int, op: Op, later: seq<Op>, t: int)
    requires op.Revoke? && Inv(c, disk, clock) && Permitted(c, disk, clock, op) && Step(c, disk, op).1 == Done
    requires AllWellFormed(later) && RunPermitted(c, Step(c, disk, op).0, op.now, later)
    requires RunElsewhere(c, Step(c, disk, op).0, later, op.scope) && op.now <= t
    ensures var end := Run(c, Step(c, disk, op).0, later);
      end.log.Some? && ActiveRecordFor(end.log.value, op.scope, t) == None
  {
    RevocationTakesAway(c, disk, clock, op, t);
    StepKeepsInv(c, disk, clock, op);
    RunElsewhereKeeps(c, Step(c, disk, op).0, op.now, later, op.scope, t);
  }

  /** Across the keys of a scope, epochs strictly ascend in the order of the log. */
  lemma EpochsStrictlyAscend(c: KeyCodec, disk: Disk, clock: int, i: int, j: int)
    requires Inv(c, disk, clock) && disk.log.Some? && 0 <= i < j < |disk.log.value|
    requires disk.log.value[i].body.scope == disk.log.value[j].body.scope
    ensures disk.log.value[i].body.keyId == disk.log.value[j].body.keyId
         || disk.log.value[i].body.epoch < disk.log.value[j].body.epoch
  {
    var records := disk.log.value;
    assert records[i].body.epoch <= records[j].body.epoch;
    assert records[i].body.keyId == records[j].body.keyId <==> records[i].body.epoch == records[j].body.epoch;
  }

  // ---------------------------------------------------------------- the loaded state

  /** The signing key of a loaded state: the active record and the private key of its slot. */
  function ActiveKey(c: KeyCodec, records: Log, pems: KeyStore, scope: int,
                     now: int): Result<(LogRecord, PrivateKey), FedError>
  {
    var r := ActiveRecordFor(records, scope, now);
    if r.None? then Err(NoActiveKey)
    else
      var slot := (r.value.body.scope, r.value.body.epoch);
      if slot !in pems then Err(MissingPrivateKey)
      else if KeyIdOf(c, pems[slot].Public()) != r.value.body.keyId then Err(KeyMismatch)
      else Ok((r.value, pems[slot]))
  }

  /** Which record and key the issuer signs with, on any log and key files: the scope's active record, with the
      key in the file of its scope and epoch, provided that key has the record's key id. */
  lemma ActiveKeyExact(c: KeyCodec, records: Log, pems: KeyStore, scope: int, now: int, r: LogRecord)
    ensures var signer, slot := ActiveKey(c, records, pems, scope, now), (r.body.scope, r.body.epoch);
      && (signer == Err(NoActiveKey) <==> forall i :: !Candidate(records, scope, now, i))
      && (ActiveRecordFor(records, scope, now) == Some(r) ==>
            if slot !in pems then signer == Err(MissingPrivateKey)
            else if KeyIdOf(c, pems[slot].Public()) != r.body.keyId then signer == Err(KeyMismatch)
            else signer == Ok((r, pems[slot])))
  {
    ActiveRecordExact(records, scope, now);
  }

  predicate EntryOf(records: Log, scope: int, now: int, entry: ScopeKeyRecord) {
    var r := ActiveRecordFor(records, scope, now);
    r.Some? && ToScopeKeyRecord(r.value) == entry
  }

  lemma {:induction false} KeysetExact(records: Log, scopes: seq<int>, now: int, entry: ScopeKeyRecord)
    ensures entry in KeysetOf(records, scopes, now)
       <==> exists s :: s in scopes && EntryOf(records, s, now, entry)
  {
    if scopes != [] {
      var rest := KeysetOf(records, scopes[1..], now);
      KeysetExact(records, scopes[1..], now, entry);
      assert forall s :: s in scopes <==> s == scopes[0] || s in scopes[1..];
      assert entry in KeysetOf(records, scopes, now) <==> EntryOf(records, scopes[0], now, entry) || entry in rest;
    }
  }

  /** A keyset with entries of these scopes only, in ascending order. */
  predicate InOrder(keyset: seq<ScopeKeyRecord>, scopes: seq<int>) {
    && (forall i :: 0 <= i < |keyset| ==> keyset[i].scope in scopes)
    && forall i, j :: 0 <= i < j < |keyset| ==> keyset[i].scope < keyset[j].scope
  }

  /** A projected keyset has its entries in the order of the scopes. */
  lemma {:induction false} KeysetOrdered(records: Log, scopes: seq<int>, now: int)
    requires forall i, j :: 0 <= i < j < |scopes| ==> scopes[i] < scopes[j]
    ensures InOrder(KeysetOf(records, scopes, now), scopes)
  {
    if scopes != [] {
      var rest, active := KeysetOf(records, scopes[1..], now), ActiveRecordFor(records, scopes[0], now);
      KeysetOrdered(records, scopes[1..], now);
      forall s | s in scopes[1..]
        ensures scopes[0] < s && s in scopes
      {
        var k :| 0 <= k < |scopes| - 1 && scopes[1..][k] == s;
        assert scopes[k + 1] == s;
      }
      assert InOrder(rest, scopes);
      if active.Some? {
        ActiveRecordExact(records, scopes[0], now);
        var k :| Candidate(records, scopes[0], now, k) && records[k] == active.value;
        assert InOrder([ToScopeKeyRecord(active.value)] + rest, scopes);
      } else {
        assert [] + rest == rest;
      }
    }
  }

  /** The issuer can sign for a scope exactly when the published keyset has an entry for it, and then
      signs with the private key behind that entry: on every reachable disk, at every time. */
  lemma SignerMatchesKeyset(c: KeyCodec, disk: Disk, clock: int, scope: int, t: int)
    requires Inv(c, disk, clock) && disk.log.Some?
    ensures var signer := ActiveKey(c, disk.log.value, disk.pems, scope, t);
      var keyset := ActiveKeyset(disk.log.value, t);
      && (signer.Ok? <==> exists entry :: entry in keyset && entry.scope == scope)
      && (signer.Ok? ==> ToScopeKeyRecord(signer.value.0) in keyset
                         && KeyIdOf(c, signer.value.1.Public()) == signer.value.0.body.keyId)
  {
    var records := disk.log.value;
    forall s | ActiveRecordFor(records, s, t).Some?
      ensures ActiveRecordFor(records, s, t).value in records
      ensures ActiveRecordFor(records, s, t).value.body.scope == s && s in SCOPES
    {
      ActiveRecordExact(records, s, t);
    }
    forall entry
      ensures entry in ActiveKeyset(records, t) <==> exists s :: s in SCOPES && EntryOf(records, s, t, entry)
    {
      KeysetExact(records, SCOPES, t, entry);
    }
    var active := ActiveRecordFor(records, scope, t);
    if active.Some? {
      var i :| 0 <= i < |records| && records[i] == active.value;
      assert EntryOf(records, scope, t, ToScopeKeyRecord(active.value));
      assert ToScopeKeyRecord(active.value).scope == scope;
    }
  }

  /** Every log on disk verifies and passes the extension check for every pin taken earlier in the run. */
  lemma PublishedLogsExtend(c: KeyCodec, disk: Disk, clock: int, ops: seq<Op>)
    requires Inv(c, disk, clock) && AllWellFormed(ops) && RunPermitted(c, disk, clock, ops) && disk.log.Some?
    ensures Run(c, disk, ops).log.Some?
    ensures Extends(c.sha, |disk.log.value|, Head(disk.log.value), Run(c, disk, ops).log.value)
    ensures KeyIdsWellFormed(Run(c, disk, ops).log.value)
  {
    RunKeepsInv(c, disk, clock, ops);
    PrefixExtends(c.sha, disk.log.value, Run(c, disk, ops).log.value);
  }

  // ---------------------------------------------------------------- from the empty directory

  /** A run from the empty directory, with a clock that does not run backwards and new keys. */
  ghost predicate History(c: KeyCodec, start: int, ops: seq<Op>) {
    AllWellFormed(ops) && RunPermitted(c, EMPTY_DISK, start, ops)
  }

  /** Every state that a run from the empty directory reaches satisfies the invariant. */
  lemma ReachableInv(c: KeyCodec, start: int, ops: seq<Op>)
    requires History(c, start, ops)
    ensures Inv(c, Run(c, EMPTY_DISK, ops), LastClock(start, ops))
  {
    RunKeepsInv(c, EMPTY_DISK, start, ops);
  }

  /** On every run from the empty directory, each scope has at most one usable key, now and at every later
      time. */
  lemma RunKeyUnique(c: KeyCodec, start: int, ops: seq<Op>, t: int, scope: int, i: int, j: int)
    requires History(c, start, ops) && Run(c, EMPTY_DISK, ops).log.Some? && LastClock(start, ops) <= t
    requires Candidate(Run(c, EMPTY_DISK, ops).log.value, scope, t, i)
    requires Candidate(Run(c, EMPTY_DISK, ops).log.value, scope, t, j)
    ensures i == j
  {
    ReachableInv(c, start, ops);
    KeyUnique(c, Run(c, EMPTY_DISK, ops), LastClock(start, ops), t, scope, i, j);
  }

  /** On every run from the empty directory, epochs strictly ascend across the keys of a scope. */
  lemma RunEpochsAscend(c: KeyCodec, start: int, ops: seq<Op>, i: int, j: int)
    requires History(c, start, ops) && Run(c, EMPTY_DISK, ops).log.Some?
    requires 0 <= i < j < |Run(c, EMPTY_DISK, ops).log.value|
    ensures var records := Run(c, EMPTY_DISK, ops).log.value;
      records[i].body.scope == records[j].body.scope ==>
        records[i].body.keyId == records[j].body.keyId || records[i].body.epoch < records[j].body.epoch
  {
    ReachableInv(c, start, ops);
    var disk := Run(c, EMPTY_DISK, ops);
    if disk.log.value[i].body.scope == disk.log.value[j].body.scope {
      EpochsStrictlyAscend(c, disk, LastClock(start, ops), i, j);
    }
  }

  /** On every run from the empty directory, the issuer can sign for a scope exactly when the keyset has
      an entry for it, and then signs with the private key behind that entry. */
  lemma RunSignerMatches(c: KeyCodec, start: int, ops: seq<Op>, scope: int, t: int)
    requires History(c, start, ops) && Run(c, EMPTY_DISK, ops).log.Some?
    ensures var disk := Run(c, EMPTY_DISK, ops);
      var signer, keyset := ActiveKey(c, disk.log.value, disk.pems, scope, t), ActiveKeyset(disk.log.value, t);
      && (signer.Ok? <==> exists entry :: entry in keyset && entry.scope == scope)
      && (signer.Ok? ==> ToScopeKeyRecord(signer.value.0) in keyset
                         && KeyIdOf(c, signer.value.1.Public()) == signer.value.0.body.keyId)
  {
    ReachableInv(c, start, ops);
    SignerMatchesKeyset(c, Run(c, EMPTY_DISK, ops), LastClock(start, ops), scope, t);
  }
}
