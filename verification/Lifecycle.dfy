/** What every run of the key lifecycle keeps, even when operations stop between their writes:
    one usable key per scope, epochs that ascend with the keys, a key store that matches the log,
    and published logs that extend every earlier pin. */
module Lifecycle {
  import opened Wrappers
  import opened Rsa
  import opened TransLog
  import opened ActiveKeys
  import opened Keys
  import opened Federation

  // ---------------------------------------------------------------- the invariant

  /** Record `i` is the last word on its key, says active, and is not expired at `t`. */
  predicate Live(records: Log, i: int, t: int) {
    0 <= i < |records| && Effective(records, records[i].body.scope, i)
    && records[i].body.status == Active && t <= records[i].body.notAfter
  }

  ghost predicate FieldsGood(records: Log, clock: int) {
    forall i :: 0 <= i < |records| ==>
      records[i].body.scope in SCOPES && |records[i].body.keyId| == 32 && records[i].body.notBefore <= clock
  }

  /** A key and its (scope, epoch) slot determine each other. */
  ghost predicate KeysMatchSlots(records: Log) {
    forall i, j :: 0 <= i < |records| && 0 <= j < |records| ==>
      (records[i].body.keyId == records[j].body.keyId <==>
       records[i].body.scope == records[j].body.scope && records[i].body.epoch == records[j].body.epoch)
  }

  ghost predicate EpochsAscend(records: Log) {
    forall i, j :: 0 <= i < j < |records| && records[i].body.scope == records[j].body.scope ==>
      records[i].body.epoch <= records[j].body.epoch
  }

  /** A live record has the newest epoch of its scope. */
  ghost predicate LiveIsNewest(records: Log, t: int) {
    forall i, j :: Live(records, i, t) && 0 <= j < |records| && records[j].body.scope == records[i].body.scope ==>
      records[j].body.epoch <= records[i].body.epoch
  }

  ghost predicate GoodLog(c: KeyCodec, records: Log, clock: int) {
    && ValidChain(c.sha, records)
    && FieldsGood(records, clock)
    && KeysMatchSlots(records)
    && EpochsAscend(records)
    && LiveIsNewest(records, clock)
  }

  /** The private key on file under this (scope, epoch) is the one whose public half is logged. */
  ghost predicate OnFile(c: KeyCodec, pems: KeyStore, b: Body) {
    var slot := (b.scope, b.epoch);
    slot in pems && (c.encode)(pems[slot].Public()) == b.spki && KeyIdOf(c, pems[slot].Public()) == b.keyId
  }

  /** Each logged (scope, epoch) has its private key on file. */
  ghost predicate StoreMatches(c: KeyCodec, records: Log, pems: KeyStore) {
    forall i :: 0 <= i < |records| ==> OnFile(c, pems, records[i].body)
  }

  ghost predicate Inv(c: KeyCodec, disk: Disk, clock: int) {
    disk.log.Some? ==> GoodLog(c, disk.log.value, clock) && StoreMatches(c, disk.log.value, disk.pems)
  }

  // ---------------------------------------------------------------- what the environment provides

  ghost predicate NotLogged(c: KeyCodec, records: Log, key: PrivateKey) {
    forall i :: 0 <= i < |records| ==> records[i].body.keyId != KeyIdOf(c, key.Public())
  }

  ghost predicate DistinctKeyIds(c: KeyCodec, keys: seq<PrivateKey>) {
    forall i, j :: 0 <= i < j < |keys| ==> KeyIdOf(c, keys[i].Public()) != KeyIdOf(c, keys[j].Public())
  }

  /** The clock does not run backwards and generated keys are new. */
  ghost predicate Permitted(c: KeyCodec, disk: Disk, clock: int, op: Op) {
    && WellFormed(op)
    && clock <= op.now
    && (op.Init? ==> DistinctKeyIds(c, op.keys))
    && (op.Rotate? && disk.log.Some? ==> NotLogged(c, disk.log.value, op.key))
  }

  ghost predicate RunPermitted(c: KeyCodec, disk: Disk, clock: int, ops: seq<Op>)
    decreases |ops|
  {
    ops == [] || (Permitted(c, disk, clock, ops[0]) && RunPermitted(c, Step(c, disk, ops[0]).0, ops[0].now, ops[1..]))
  }

  ghost function Run(c: KeyCodec, disk: Disk, ops: seq<Op>): Disk
    requires forall i :: 0 <= i < |ops| ==> WellFormed(ops[i])
    decreases |ops|
  {
    if ops == [] then disk else Run(c, Step(c, disk, ops[0]).0, ops[1..])
  }

  function LastClock(clock: int, ops: seq<Op>): int {
    if ops == [] then clock else ops[|ops| - 1].now
  }

  // ---------------------------------------------------------------- one appended record

  lemma EffectiveAfterAppend(records: Log, r: LogRecord, scope: int, i: int)
    ensures Effective(records + [r], scope, i) <==>
      if i == |records| then r.body.scope == scope
      else Effective(records, scope, i) && (r.body.scope == scope ==> r.body.keyId != records[i].body.keyId)
  {
    var longer := records + [r];
    assert longer[..|records|] == records;
    EffectiveAtStep(longer, scope, i);
  }

  /** No key of the scope is active and unexpired. */
  ghost predicate NoneLive(records: Log, scope: int, t: int) {
    forall i :: Live(records, i, t) ==> records[i].body.scope != scope
  }

  lemma LiveAfterAppend(records: Log, r: LogRecord, i: int, t: int)
    ensures Live(records + [r], i, t) <==>
      if i == |records| then r.body.status == Active && t <= r.body.notAfter
      else Live(records, i, t) && (r.body.scope == records[i].body.scope ==> r.body.keyId != records[i].body.keyId)
  {
    if 0 <= i <= |records| {
      EffectiveAfterAppend(records, r, (records + [r])[i].body.scope, i);
    }
  }

  /** A usable key at `now` is a live record, because every key's window has begun by now. */
  lemma CandidateIsLive(c: KeyCodec, records: Log, clock: int, scope: int, t: int, i: int)
    requires GoodLog(c, records, clock) && clock <= t
    ensures Candidate(records, scope, t, i) <==> Live(records, i, t) && records[i].body.scope == scope
  {
  }

  /** Two live records of one scope are of one key. */
  lemma OneLiveKey(c: KeyCodec, records: Log, clock: int, i: int, k: int)
    requires GoodLog(c, records, clock)
    ensures Live(records, i, clock) && Live(records, k, clock) && records[i].body.scope == records[k].body.scope ==>
      records[i].body.keyId == records[k].body.keyId && i == k
  {
    if Live(records, i, clock) && Live(records, k, clock) && records[i].body.scope == records[k].body.scope {
      assert records[i].body.epoch == records[k].body.epoch;
    }
  }

  /** Appending a record with status retired or revoked for the key of record `k`. */
  lemma CloseKey(c: KeyCodec, records: Log, clock: int, now: int, k: int, body: Body)
    requires GoodLog(c, records, clock) && clock <= now && Live(records, k, now)
    requires body.seqNo == |records| && AppendRecord(c.sha, records, body).Ok?
    requires body.scope == records[k].body.scope && body.epoch == records[k].body.epoch
    requires body.keyId == records[k].body.keyId && body.notBefore == records[k].body.notBefore
    requires body.status != Active
    ensures var longer := records + [AppendRecord(c.sha, records, body).value];
      GoodLog(c, longer, now) && NoneLive(longer, body.scope, now)
  {
    var r := AppendRecord(c.sha, records, body).value;
    var longer := records + [r];
    AppendKeepsChain(c.sha, records, body);
    assert Live(records, k, clock);
    forall i
      ensures Live(longer, i, now) ==> i < |records| && Live(records, i, clock) && records[i].body.scope != body.scope
    {
      LiveAfterAppend(records, r, i, now);
      OneLiveKey(c, records, clock, i, k);
    }
  }

  /** Appending an active record for a new key with a new, larger epoch. */
  lemma OpenKey(c: KeyCodec, records: Log, now: int, body: Body)
    requires GoodLog(c, records, now) && NoneLive(records, body.scope, now)
    requires body.seqNo == |records| && AppendRecord(c.sha, records, body).Ok?
    requires body.status == Active && body.notBefore == now
    requires forall i :: 0 <= i < |records| ==> records[i].body.keyId != body.keyId
    requires forall i :: 0 <= i < |records| && records[i].body.scope == body.scope ==>
        records[i].body.epoch < body.epoch
    ensures GoodLog(c, records + [AppendRecord(c.sha, records, body).value], now)
  {
    var r := AppendRecord(c.sha, records, body).value;
    var longer := records + [r];
    AppendKeepsChain(c.sha, records, body);
    forall i
      ensures Live(longer, i, now) ==> i == |records| || (Live(records, i, now) && records[i].body.scope != body.scope)
    {
      LiveAfterAppend(records, r, i, now);
    }
  }

  lemma GoodLater(c: KeyCodec, records: Log, clock: int, now: int)
    requires GoodLog(c, records, clock) && clock <= now
    ensures GoodLog(c, records, now)
  {
    forall i | Live(records, i, now)
      ensures Live(records, i, clock)
    {
    }
  }

  /** Record `i` is of this scope and has its largest epoch. */
  predicate TopEpoch(records: Log, scope: int, i: int) {
    && 0 <= i < |records| && records[i].body.scope == scope
    && forall j :: 0 <= j < |records| && records[j].body.scope == scope ==>
         records[j].body.epoch <= records[i].body.epoch
  }

  /** The largest epoch of a scope is that of some record of the scope, and there is none without one. */
  lemma {:induction false} MaxEpochExact(records: Log, scope: int)
    ensures var m := MaxEpoch(records, scope);
      && (forall i :: 0 <= i < |records| && records[i].body.scope == scope ==>
            m.Some? && records[i].body.epoch <= m.value)
      && (m.Some? ==> exists i :: TopEpoch(records, scope, i) && records[i].body.epoch == m.value)
  {
    if records != [] {
      var n := |records| - 1;
      var before := records[..n];
      MaxEpochExact(before, scope);
      forall i | 0 <= i < n
        ensures before[i] == records[i]
      {
      }
      var m, m' := MaxEpoch(before, scope), MaxEpoch(records, scope);
      if m'.Some? && m' == m {
        var i :| TopEpoch(before, scope, i) && before[i].body.epoch == m.value;
        assert TopEpoch(records, scope, i);
      } else if m'.Some? {
        assert TopEpoch(records, scope, n);
      }
    }
  }

  /** The record that `active_record_for` finds now is a live one of the scope; if it finds none,
      none is live. */
  lemma FoundIsLive(c: KeyCodec, records: Log, clock: int, scope: int, now: int) returns (k: int)
    requires GoodLog(c, records, clock) && clock <= now
    ensures var found := ActiveRecordFor(records, scope, now);
      if found.None? then NoneLive(records, scope, now)
      else Live(records, k, now) && records[k] == found.value && found.value.body.scope == scope
  {
    k := 0;
    ActiveRecordExact(records, scope, now);
    var found := ActiveRecordFor(records, scope, now);
    forall i
      ensures Candidate(records, scope, now, i) <==> Live(records, i, now) && records[i].body.scope == scope
    {
      CandidateIsLive(c, records, clock, scope, now, i);
    }
    if found.Some? {
      k :| Candidate(records, scope, now, k) && records[k] == found.value;
    }
  }

  lemma RetireGood(c: KeyCodec, records: Log, clock: int, scope: int, now: int)
    requires GoodLog(c, records, clock) && clock <= now && Retire(c, records, scope, now).Ok?
    ensures var retired := Retire(c, records, scope, now).value;
      && records <= retired && GoodLog(c, retired, now) && NoneLive(retired, scope, now)
      && forall i :: |records| <= i < |retired| ==>
           exists k :: 0 <= k < |records| && SameKey(retired[i], records[k])
  {
    var k := FoundIsLive(c, records, clock, scope, now);
    var found := ActiveRecordFor(records, scope, now);
    if found.None? {
      GoodLater(c, records, clock, now);
    } else {
      CloseKey(c, records, clock, now, k, RetiredBody(records, found.value, now));
      assert SameKey(Retire(c, records, scope, now).value[|records|], records[k]);
    }
  }

  ghost predicate SameKey(r: LogRecord, s: LogRecord) {
    && r.body.scope == s.body.scope && r.body.epoch == s.body.epoch
    && r.body.keyId == s.body.keyId && r.body.spki == s.body.spki
  }

  // ---------------------------------------------------------------- steps

  /** The log an operation publishes when it runs to its end. */
  ghost predicate Rotated(c: KeyCodec, before: Log, after: Log, op: Op)
    requires op.Rotate?
  {
    && MaxEpoch(before, op.scope).Some? && Retire(c, before, op.scope, op.now).Ok?
    && Activated(c, Retire(c, before, op.scope, op.now).value, NextSlot(before, op.scope),
                 op.now, op.validity, op.key) == Ok(after)
  }

  ghost predicate RevokedTo(c: KeyCodec, before: Log, after: Log, op: Op)
    requires op.Revoke?
  {
    && ActiveRecordFor(before, op.scope, op.now).Some?
    && Extended(c, before, RevokedBody(before, ActiveRecordFor(before, op.scope, op.now).value, op.now)) == Ok(after)
  }

  lemma {:induction false} WritesOutside(disk: Disk, steps: seq<Write>)
    ensures (forall i :: 0 <= i < |steps| ==> !steps[i].WritePem?) ==> ApplyWrites(disk, steps).pems == disk.pems
    ensures (forall i :: 0 <= i < |steps| ==> !steps[i].WriteLog?) ==> ApplyWrites(disk, steps).log == disk.log
  {
    if steps != [] {
      var n := |steps| - 1;
      WritesOutside(disk, steps[..n]);
      assert forall i :: 0 <= i < n ==> steps[..n][i] == steps[i];
    }
  }

  lemma PublicFilesEffect(disk: Disk, head: HeadFile, keyset: seq<ScopeKeyRecord>, log: Log, stop: nat)
    ensures var (after, o) := Execute(disk, Plan([WriteHead(head), WriteKeyset(keyset), WriteLog(log)], None), stop);
      after.pems == disk.pems && after.log == (if o == Done then Some(log) else disk.log)
  {
    var steps := [WriteHead(head), WriteKeyset(keyset), WriteLog(log)];
    WritesOutside(disk, steps);
    if stop < 3 { WritesOutside(disk, steps[..stop]); }
  }

  /** Publishing touches no key file, and replaces the log only when it runs to its end. */
  lemma PublishEffect(disk: Disk, longer: Result<Log, FedError>, now: int, stop: nat)
    ensures var (after, o) := Execute(disk, PublishWith(longer, now), stop);
      && after.pems == disk.pems
      && (if o == Done then longer.Ok? && after.log == Some(longer.value) else after.log == disk.log)
  {
    if longer.Ok? {
      PublicFilesEffect(disk, HeadFile(|longer.value|, Head(longer.value), now), ActiveKeyset(longer.value, now),
                        longer.value, stop);
    }
  }

  lemma IntroduceEffect(disk: Disk, slot: Slot, key: PrivateKey, longer: Result<Log, FedError>, now: int, stop: nat)
    ensures var (after, o) := Execute(disk, After(WritePem(slot, key), PublishWith(longer, now)), stop);
      if o == Done then longer.Ok? && after.log == Some(longer.value) && after.pems == disk.pems[slot := key]
      else after.log == disk.log && (after.pems == disk.pems || after.pems == disk.pems[slot := key])
  {
    ExecuteAfter(disk, WritePem(slot, key), PublishWith(longer, now), stop);
    if stop > 0 {
      PublishEffect(ApplyWrite(disk, WritePem(slot, key)), longer, now, stop - 1);
    }
  }

  /** The slot a rotation writes its key to. */
  function NextSlot(records: Log, scope: int): Slot
    requires MaxEpoch(records, scope).Some?
  {
    (scope, MaxEpoch(records, scope).value + 1)
  }

  /** The key store is as before, or has the new key under the next epoch. */
  ghost predicate PemsAfterRotate(disk: Disk, after: Disk, op: Op)
    requires op.Rotate?
  {
    after.pems == disk.pems
    || (disk.log.Some? && MaxEpoch(disk.log.value, op.scope).Some?
        && after.pems == disk.pems[NextSlot(disk.log.value, op.scope) := op.key])
  }

  ghost predicate RotateDone(c: KeyCodec, disk: Disk, after: Disk, op: Op)
    requires op.Rotate?
  {
    && disk.log.Some? && after.log.Some? && op.scope in SCOPES
    && Rotated(c, disk.log.value, after.log.value, op)
    && after.pems == disk.pems[NextSlot(disk.log.value, op.scope) := op.key]
  }

  /** A rotation fails before its first write, or writes its key file and publishes. */
  lemma RotatePlanCases(c: KeyCodec, disk: Disk, op: Op) returns (longer: Option<Result<Log, FedError>>)
    requires op.Rotate?
    ensures var plan := RotatePlan(c, disk, op.scope, op.now, op.validity, op.bits, op.key);
      var ready := ReadyToRotate(c, disk, op.scope, op.now);
      if ready.Ok? && op.bits in ALLOWED_MODULUS_BITS then
        && longer == Some(Activated(c, ready.value, NextSlot(disk.log.value, op.scope), op.now, op.validity, op.key))
        && plan == After(WritePem(NextSlot(disk.log.value, op.scope), op.key), PublishWith(longer.value, op.now))
      else longer == None && plan.steps == [] && plan.error.Some?
  {
    var ready := ReadyToRotate(c, disk, op.scope, op.now);
    longer := if ready.Ok? && op.bits in ALLOWED_MODULUS_BITS
              then Some(Activated(c, ready.value, NextSlot(disk.log.value, op.scope), op.now, op.validity, op.key))
              else None;
  }

  lemma RotateEffect(c: KeyCodec, disk: Disk, op: Op)
    requires op.Rotate?
    ensures var (after, o) := Execute(disk, RotatePlan(c, disk, op.scope, op.now, op.validity, op.bits, op.key),
                                      op.stop);
      if o == Done then RotateDone(c, disk, after, op)
      else after.log == disk.log && PemsAfterRotate(disk, after, op)
  {
    var longer := RotatePlanCases(c, disk, op);
    if longer.Some? {
      IntroduceEffect(disk, NextSlot(disk.log.value, op.scope), op.key, longer.value, op.now, op.stop);
    }
  }

  lemma RevokeEffect(c: KeyCodec, disk: Disk, op: Op)
    requires op.Revoke?
    ensures var (after, o) := Execute(disk, RevokePlan(c, disk, op.scope, op.now), op.stop);
      && after.pems == disk.pems
      && (if o == Done then disk.log.Some? && after.log.Some? && RevokedTo(c, disk.log.value, after.log.value, op)
          else after.log == disk.log)
  {
    if op.scope in SCOPES && disk.log.Some? && ValidChain(c.sha, disk.log.value)
       && ActiveRecordFor(disk.log.value, op.scope, op.now).Some? {
      var records := disk.log.value;
      PublishEffect(disk, Extended(c, records,
                                   RevokedBody(records, ActiveRecordFor(records, op.scope, op.now).value, op.now)),
                    op.now, op.stop);
    }
  }

  lemma RotateGood(c: KeyCodec, before: Log, after: Log, clock: int, op: Op)
    requires op.Rotate? && clock <= op.now && GoodLog(c, before, clock) && NotLogged(c, before, op.key)
    requires Rotated(c, before, after, op)
    ensures before <= after && GoodLog(c, after, op.now)
    ensures forall i :: |before| <= i < |after| - 1 ==> exists k :: 0 <= k < |before| && SameKey(after[i], before[k])
    ensures after != [] && after[|after| - 1].body.scope == op.scope && after[|after| - 1].body.status == Active
    ensures after[|after| - 1].body.notBefore == op.now && after[|after| - 1].body.notAfter == op.now + op.validity
    ensures after[|after| - 1].body.epoch == MaxEpoch(before, op.scope).value + 1
    ensures after[|after| - 1].body.keyId == KeyIdOf(c, op.key.Public())
    ensures after[|after| - 1].body.spki == (c.encode)(op.key.Public())
    ensures forall t, i :: op.now <= t && Live(after, i, t) && after[i].body.scope == op.scope ==> i == |after| - 1
  {
    var retired := Retire(c, before, op.scope, op.now).value;
    RetireGood(c, before, clock, op.scope, op.now);
    MaxEpochExact(before, op.scope);
    var epoch := MaxEpoch(before, op.scope).value + 1;
    var body := FreshBody(c, retired, op.scope, epoch, op.now, op.validity, op.key);
    forall i | 0 <= i < |retired|
      ensures retired[i].body.keyId != body.keyId
      ensures retired[i].body.scope == body.scope ==> retired[i].body.epoch < body.epoch
    {
      if i < |before| { assert retired[i] == before[i]; }
    }
    OpenKey(c, retired, op.now, body);
    forall t, i | op.now <= t && Live(after, i, t) && after[i].body.scope == op.scope
      ensures i == |after| - 1
    {
      assert Live(after, i, op.now);
      LiveAfterAppend(retired, after[|retired|], i, op.now);
    }
  }

  lemma RevokeGood(c: KeyCodec, before: Log, after: Log, clock: int, op: Op)
    requires op.Revoke? && clock <= op.now && GoodLog(c, before, clock) && RevokedTo(c, before, after, op)
    ensures before <= after && GoodLog(c, after, op.now) && NoneLive(after, op.scope, op.now)
    ensures forall i :: |before| <= i < |after| ==> exists k :: 0 <= k < |before| && SameKey(after[i], before[k])
    ensures forall i :: |before| <= i < |after| ==> after[i].body.scope == op.scope
  {
    var k := FoundIsLive(c, before, clock, op.scope, op.now);
    var found := ActiveRecordFor(before, op.scope, op.now).value;
    CloseKey(c, before, clock, op.now, k, RevokedBody(before, found, op.now));
    assert SameKey(after[|before|], before[k]);
  }

  /** Writing a key file under an epoch that is not logged yet disturbs no logged key. */
  lemma StoreKeeps(c: KeyCodec, records: Log, pems: KeyStore, scope: int, key: PrivateKey)
    requires StoreMatches(c, records, pems) && MaxEpoch(records, scope).Some?
    ensures StoreMatches(c, records, pems[NextSlot(records, scope) := key])
  {
    MaxEpochExact(records, scope);
  }

  lemma StoreExtends(c: KeyCodec, before: Log, after: Log, pems: KeyStore, n: nat)
    requires StoreMatches(c, before, pems) && before <= after && |before| <= n <= |after|
    requires forall i :: |before| <= i < n ==> exists k :: 0 <= k < |before| && SameKey(after[i], before[k])
    ensures StoreMatches(c, after[..n], pems)
  {
    forall i | 0 <= i < n
      ensures OnFile(c, pems, after[i].body)
    {
      if i < |before| {
        assert after[i] == before[i];
      } else {
        var k :| 0 <= k < |before| && SameKey(after[i], before[k]);
      }
    }
  }

  lemma StoreWithLast(c: KeyCodec, records: Log, pems: KeyStore)
    requires records != [] && StoreMatches(c, records[..|records| - 1], pems)
    requires OnFile(c, pems, records[|records| - 1].body)
    ensures StoreMatches(c, records, pems)
  {
    var n := |records| - 1;
    forall i | 0 <= i < |records|
      ensures OnFile(c, pems, records[i].body)
    {
      if i < n { assert records[..n][i] == records[i]; }
    }
  }

  /** The log after a step extends the log before it. */
  ghost predicate LogGrows(before: Disk, after: Disk) {
    before.log.Some? ==> after.log.Some? && before.log.value <= after.log.value
  }

  lemma RotateDoneKeepsInv(c: KeyCodec, disk: Disk, after: Disk, clock: int, op: Op)
    requires op.Rotate? && Inv(c, disk, clock) && Permitted(c, disk, clock, op) && RotateDone(c, disk, after, op)
    ensures Inv(c, after, op.now) && LogGrows(disk, after)
  {
    var before, longer := disk.log.value, after.log.value;
    RotateGood(c, before, longer, clock, op);
    StoreKeeps(c, before, disk.pems, op.scope, op.key);
    StoreExtends(c, before, longer, after.pems, |longer| - 1);
    StoreWithLast(c, longer, after.pems);
  }

  lemma RotateKeepsInv(c: KeyCodec, disk: Disk, clock: int, op: Op)
    requires op.Rotate? && Inv(c, disk, clock) && Permitted(c, disk, clock, op)
    ensures Inv(c, Step(c, disk, op).0, op.now) && LogGrows(disk, Step(c, disk, op).0)
  {
    RotateEffect(c, disk, op);
    var (next, o) := Step(c, disk, op);
    if o == Done {
      RotateDoneKeepsInv(c, disk, next, clock, op);
    } else if disk.log.Some? {
      var before := disk.log.value;
      GoodLater(c, before, clock, op.now);
      if MaxEpoch(before, op.scope).Some? { StoreKeeps(c, before, disk.pems, op.scope, op.key); }
    }
  }

  lemma RevokeKeepsInv(c: KeyCodec, disk: Disk, clock: int, op: Op)
    requires op.Revoke? && Inv(c, disk, clock) && Permitted(c, disk, clock, op)
    ensures Inv(c, Step(c, disk, op).0, op.now) && LogGrows(disk, Step(c, disk, op).0)
  {
    RevokeEffect(c, disk, op);
    var (next, o) := Step(c, disk, op);
    if disk.log.Some? {
      var before := disk.log.value;
      if o == Done {
        var after := next.log.value;
        RevokeGood(c, before, after, clock, op);
        StoreExtends(c, before, after, disk.pems, |after|);
        assert after[..|after|] == after;
      } else {
        GoodLater(c, before, clock, op.now);
      }
    }
  }
}
