/** What the three key operations answer and what they log, spelled out: for every outcome the condition
    under which it is given, for every finished operation the records it adds, and what the issuer can
    sign with from then on. */
module Operations {
  import opened Wrappers
  import opened Rsa
  import opened TransLog
  import opened ActiveKeys
  import opened Keys
  import opened Federation
  import opened Lifecycle
  import opened LifecycleRuns

  const U64 := 0x1_0000_0000_0000_0000
  const U32 := 0x1_0000_0000

  /** The new record of a key can be written. */
  predicate KeyFits(c: KeyCodec, seqNo: int, epoch: int, now: int, validity: int, key: PrivateKey) {
    && 0 <= seqNo < U64 && 0 <= epoch < U32 && 0 <= now < U64 && 0 <= now + validity < U64
    && |(c.encode)(key.Public())| < U32
  }

  /** The record of a new key, active from now on for its validity. */
  ghost predicate NewKeyRecord(c: KeyCodec, b: Body, seqNo: int, scope: int, epoch: int, now: int, validity: int,
                               key: PrivateKey)
  {
    && b.seqNo == seqNo && b.ts == now && b.scope == scope && b.epoch == epoch
    && b.keyId == (c.sha)((c.encode)(key.Public())) && b.spki == (c.encode)(key.Public())
    && b.notBefore == now && b.notAfter == now + validity && b.status == Active
  }

  /** A record that says of an earlier one's key that it has this status, valid until `notAfter`. */
  predicate StatusRecord(b: Body, earlier: Body, seqNo: int, now: int, notAfter: int, status: Status) {
    && b.seqNo == seqNo && b.ts == now && b.scope == earlier.scope && b.epoch == earlier.epoch
    && b.keyId == earlier.keyId && b.spki == earlier.spki && b.notBefore == earlier.notBefore
    && b.notAfter == notAfter && b.status == status
  }

  /** A log with one record more, or the reason why it cannot be written. */
  lemma ExtendedExact(c: KeyCodec, records: Log, body: Body)
    requires body.seqNo == |records| && body.status in {Active, Retired, Revoked}
    requires body.scope in {13, 16, 18, 21} && |body.keyId| == 32
    ensures Extended(c, records, body).Ok? <==> Encodable(body)
    ensures Extended(c, records, body).Err? ==> Extended(c, records, body) == Err(LogRefused(FieldOverflow))
    ensures Extended(c, records, body).Ok? ==>
      exists r: LogRecord :: r.body == body && Extended(c, records, body) == Ok(records + [r])
  {
    AppendExact(c.sha, records, body);
    if Encodable(body) {
      var r := AppendRecord(c.sha, records, body).value;
      assert r.body == body && Extended(c, records, body) == Ok(records + [r]);
    }
  }

  lemma FreshFits(c: KeyCodec, records: Log, scope: int, epoch: int, now: int, validity: int, key: PrivateKey)
    requires scope in {13, 16, 18, 21}
    ensures Encodable(FreshBody(c, records, scope, epoch, now, validity, key))
       <==> KeyFits(c, |records|, epoch, now, validity, key)
    ensures NewKeyRecord(c, FreshBody(c, records, scope, epoch, now, validity, key), |records|, scope, epoch, now,
                         validity, key)
  {
    EncodableExact(FreshBody(c, records, scope, epoch, now, validity, key));
  }

  // ---------------------------------------------------------------- initialisation

  /** The first log after `n` scopes. */
  ghost predicate FirstLog(c: KeyCodec, records: Log, scopes: seq<int>, now: int, validity: int, keys: seq<PrivateKey>,
                           n: nat)
    requires n <= |scopes| == |keys|
  {
    |records| == n
    && forall i :: 0 <= i < n ==> NewKeyRecord(c, records[i].body, i, scopes[i], 1, now, validity, keys[i])
  }

  /** How many of the first `n` keys have records that can be written, up to the first that has not. */
  function LeadingFits(c: KeyCodec, now: int, validity: int, keys: seq<PrivateKey>, n: nat): (k: nat)
    requires n <= |keys|
    ensures k <= n && forall i :: 0 <= i < k ==> KeyFits(c, i, 1, now, validity, keys[i])
    ensures k < n ==> !KeyFits(c, k, 1, now, validity, keys[k])
  {
    if n == 0 then 0
    else
      var k := LeadingFits(c, now, validity, keys, n - 1);
      if k == n - 1 && KeyFits(c, k, 1, now, validity, keys[k]) then n else k
  }

  /** What is written and built for the first `n` scopes: all of it, or as far as records can be written. */
  ghost predicate BuiltUpTo(c: KeyCodec, scopes: seq<int>, now: int, validity: int, keys: seq<PrivateKey>, n: nat)
    requires n <= |scopes| == |keys|
  {
    var (steps, records) := InitRecords(c, scopes, now, validity, keys, n);
    var k := LeadingFits(c, now, validity, keys, n);
    if k == n then |steps| == 4 + n && records.Ok? && FirstLog(c, records.value, scopes, now, validity, keys, n)
    else |steps| == 5 + k && records == Err(LogRefused(FieldOverflow))
  }

  lemma OneRecordMore(c: KeyCodec, scopes: seq<int>, now: int, validity: int, keys: seq<PrivateKey>, n: nat)
    requires 0 < n <= |scopes| == |keys| && scopes[n - 1] in {13, 16, 18, 21}
    requires BuiltUpTo(c, scopes, now, validity, keys, n - 1)
    ensures BuiltUpTo(c, scopes, now, validity, keys, n)
  {
    if LeadingFits(c, now, validity, keys, n - 1) == n - 1 {
      var before := InitRecords(c, scopes, now, validity, keys, n - 1).1.value;
      FreshFits(c, before, scopes[n - 1], 1, now, validity, keys[n - 1]);
      ExtendedExact(c, before, FreshBody(c, before, scopes[n - 1], 1, now, validity, keys[n - 1]));
    }
  }

  lemma {:induction false} FirstRecordsExact(c: KeyCodec, scopes: seq<int>, now: int, validity: int,
                                             keys: seq<PrivateKey>, n: nat)
    requires n <= |scopes| == |keys| && forall i :: 0 <= i < |scopes| ==> scopes[i] in {13, 16, 18, 21}
    ensures BuiltUpTo(c, scopes, now, validity, keys, n)
  {
    if n > 0 {
      FirstRecordsExact(c, scopes, now, validity, keys, n - 1);
      OneRecordMore(c, scopes, now, validity, keys, n);
    }
  }

  /** What an initialisation answers: every outcome, with the number of writes before it. */
  lemma InitAnswer(c: KeyCodec, disk: Disk, op: Op)
    requires op.Init? && WellFormed(op)
    ensures |op.keys| == 4
    ensures Step(c, disk, op).1 ==
      if disk.log.Some? then Failed(AlreadyInitialized)
      else if op.bits !in {2048, 3072, 4096} then if op.stop < 4 then Stopped else Failed(BadModulusSize)
      else
        var fit := LeadingFits(c, op.now, op.validity, op.keys, 4);
        if fit < 4 then if op.stop < 5 + fit then Stopped else Failed(LogRefused(FieldOverflow))
        else if op.stop < 11 then Stopped else Done
  {
    if disk.log.None? && op.bits in ALLOWED_MODULUS_BITS {
      FirstRecordsExact(c, SCOPES, op.now, op.validity, op.keys, 4);
    }
  }

  /** The log that an initialisation leaves, finished or stopped behind it: one active key for each scope, in
      the order of the scopes. */
  lemma InitLogged(c: KeyCodec, disk: Disk, op: Op)
    requires op.Init? && WellFormed(op) && disk.log.None? && Step(c, disk, op).0.log.Some?
    ensures |op.keys| == 4
    ensures FirstLog(c, Step(c, disk, op).0.log.value, [13, 16, 18, 21], op.now, op.validity, op.keys, 4)
  {
    InitEffect(c, disk, op);
    FirstRecordsExact(c, SCOPES, op.now, op.validity, op.keys, 4);
  }

  /** From the initialisation on, each scope has the key made for it until that expires, and then none. */
  lemma FirstKeysActive(c: KeyCodec, records: Log, now: int, validity: int, keys: seq<PrivateKey>, i: nat, t: int)
    requires |keys| == 4 && FirstLog(c, records, SCOPES, now, validity, keys, 4) && i < 4 && now <= t
    ensures ActiveRecordFor(records, SCOPES[i], t) == if t <= now + validity then Some(records[i]) else None
  {
    forall k | Candidate(records, SCOPES[i], t, k)
      ensures k == i
    {
      assert NewKeyRecord(c, records[k].body, k, SCOPES[k], 1, now, validity, keys[k]);
    }
    assert NewKeyRecord(c, records[i].body, i, SCOPES[i], 1, now, validity, keys[i]);
    forall j | i < j < 4
      ensures records[j].body.scope != SCOPES[i]
    {
      assert NewKeyRecord(c, records[j].body, j, SCOPES[j], 1, now, validity, keys[j]);
    }
    OnlyCandidate(records, SCOPES[i], t, i);
  }

  /** What the issuer signs with for a scope at `t`: this record and a private key for the public key in it,
      until `end`, and nothing afterwards. */
  ghost predicate SignsUntil(c: KeyCodec, disk: Disk, scope: int, t: int, end: int, record: LogRecord) {
    && disk.log.Some?
    && ActiveRecordFor(disk.log.value, scope, t) == (if t <= end then Some(record) else None)
    && var signer := ActiveKey(c, disk.log.value, disk.pems, scope, t);
       if t <= end
       then signer.Ok? && signer.value.0 == record && (c.encode)(signer.value.1.Public()) == record.body.spki
       else signer == Err(NoActiveKey)
  }

  lemma ActiveSigns(c: KeyCodec, disk: Disk, clock: int, scope: int, t: int, end: int, record: LogRecord)
    requires Inv(c, disk, clock) && disk.log.Some?
    requires ActiveRecordFor(disk.log.value, scope, t) == if t <= end then Some(record) else None
    ensures SignsUntil(c, disk, scope, t, end, record)
  {
    if t <= end {
      ActiveRecordExact(disk.log.value, scope, t);
      var i :| Candidate(disk.log.value, scope, t, i) && disk.log.value[i] == record;
      assert OnFile(c, disk.pems, disk.log.value[i].body);
    }
  }

  /** An initialised issuer can sign for every scope, with the key made for it, from the initialisation until
      the validity ends, whatever happens to other scopes and whatever stops halfway in the meantime. */
  lemma InitTakesOver(c: KeyCodec, disk: Disk, clock: int, op: Op, later: seq<Op>, i: nat, t: int)
    returns (record: LogRecord)
    requires op.Init? && Inv(c, disk, clock) && Permitted(c, disk, clock, op) && disk.log.None? && i < 4 && op.now <= t
    requires Step(c, disk, op).0.log.Some?
    requires AllWellFormed(later) && RunPermitted(c, Step(c, disk, op).0, op.now, later)
    requires RunElsewhere(c, Step(c, disk, op).0, later, [13, 16, 18, 21][i])
    ensures |op.keys| == 4
    ensures NewKeyRecord(c, record.body, i, [13, 16, 18, 21][i], 1, op.now, op.validity, op.keys[i])
    ensures SignsUntil(c, Run(c, Step(c, disk, op).0, later), [13, 16, 18, 21][i], t, op.now + op.validity, record)
  {
    var next := Step(c, disk, op).0;
    InitLogged(c, disk, op);
    FirstKeysActive(c, next.log.value, op.now, op.validity, op.keys, i, t);
    record := next.log.value[i];
    assert NewKeyRecord(c, record.body, i, SCOPES[i], 1, op.now, op.validity, op.keys[i]);
    StepKeepsInv(c, disk, clock, op);
    RunElsewhereKeeps(c, next, op.now, later, SCOPES[i], t);
    RunKeepsInv(c, next, op.now, later);
    ActiveSigns(c, Run(c, next, later), LastClock(op.now, later), SCOPES[i], t, op.now + op.validity, record);
  }

  // ---------------------------------------------------------------- rotation

  /** The scope has a key in the log. */
  predicate HasHistory(records: Log, scope: int) {
    exists i :: 0 <= i < |records| && records[i].body.scope == scope
  }

  /** Every epoch of the scope leaves room for a next one in four bytes. */
  predicate EpochsLeft(records: Log, scope: int) {
    forall i :: 0 <= i < |records| && records[i].body.scope == scope ==> records[i].body.epoch + 1 < U32
  }

  /** One more record, which says of the current key that it is retired and ends its validity. */
  predicate RetirementLogged(before: Log, after: Log, current: LogRecord, now: int) {
    && |after| == |before| + 1 && before <= after
    && StatusRecord(after[|before|].body, current.body, |before|, now, now, Retired)
  }

  lemma RetireExact(c: KeyCodec, records: Log, scope: int, now: int)
    requires ValidChain(c.sha, records) && KeyIdsWellFormed(records) && scope in {13, 16, 18, 21}
    ensures var current, retired := ActiveRecordFor(records, scope, now), Retire(c, records, scope, now);
      && (current.None? ==> retired == Ok(records))
      && (current.Some? ==>
            if 0 <= now < U64 && |records| < U64
            then retired.Ok? && RetirementLogged(records, retired.value, current.value, now)
            else retired == Err(LogRefused(FieldOverflow)))
  {
    var current := ActiveRecordFor(records, scope, now);
    if current.Some? {
      ActiveRecordExact(records, scope, now);
      var i :| Candidate(records, scope, now, i) && records[i] == current.value;
      assert Linked(c.sha, records, i);
      var body := RetiredBody(records, current.value, now);
      EncodableExact(current.value.body);
      EncodableExact(body);
      ExtendedExact(c, records, body);
      if Encodable(body) {
        var r: LogRecord :| r.body == body && Extended(c, records, body) == Ok(records + [r]);
      }
    }
  }

  /** The log that a finished rotation leaves: the retirement of the current key, if there was one, ending its
      validity at once, and then the new key with an epoch one above the largest of the scope. */
  ghost predicate RotationLogged(c: KeyCodec, before: Log, after: Log, op: Op)
    requires op.Rotate?
  {
    var current, n := ActiveRecordFor(before, op.scope, op.now), |before|;
    && |after| == n + (if current.Some? then 2 else 1) && before <= after
    && (current.Some? ==> StatusRecord(after[n].body, current.value.body, n, op.now, op.now, Retired))
    && exists i :: TopEpoch(before, op.scope, i) && RotatedFrom(c, before[i].body.epoch, after, op)
  }

  ghost predicate RotatedFrom(c: KeyCodec, epoch: int, after: Log, op: Op)
    requires op.Rotate? && after != []
  {
    NewKeyRecord(c, after[|after| - 1].body, |after| - 1, op.scope, epoch + 1, op.now, op.validity, op.key)
  }

  lemma RotatedIsLogged(c: KeyCodec, before: Log, after: Log, op: Op)
    requires op.Rotate? && op.scope in SCOPES && ValidChain(c.sha, before) && KeyIdsWellFormed(before)
    requires Rotated(c, before, after, op)
    ensures RotationLogged(c, before, after, op)
  {
    RetireExact(c, before, op.scope, op.now);
    MaxEpochExact(before, op.scope);
    var retired, epoch := Retire(c, before, op.scope, op.now).value, MaxEpoch(before, op.scope).value;
    var i :| TopEpoch(before, op.scope, i) && before[i].body.epoch == epoch;
    FreshFits(c, retired, op.scope, epoch + 1, op.now, op.validity, op.key);
    ExtendedExact(c, retired, FreshBody(c, retired, op.scope, epoch + 1, op.now, op.validity, op.key));
    assert RotatedFrom(c, before[i].body.epoch, after, op);
  }

  /** The checks of a rotation before it generates its key. */
  lemma ReadyExact(c: KeyCodec, disk: Disk, scope: int, now: int)
    requires disk.log.Some? && ValidChain(c.sha, disk.log.value) ==> KeyIdsWellFormed(disk.log.value)
    ensures var ready := ReadyToRotate(c, disk, scope, now);
      if scope !in {13, 16, 18, 21} then ready == Err(BadScope)
      else if disk.log.None? then ready == Err(StateMissing)
      else if !ValidChain(c.sha, disk.log.value) then ready == Err(CorruptLog)
      else if !HasHistory(disk.log.value, scope) then ready == Err(NoKeyHistory)
      else
        if ActiveRecordFor(disk.log.value, scope, now).Some? && !(0 <= now < U64 && |disk.log.value| < U64)
        then ready == Err(LogRefused(FieldOverflow))
        else ready.Ok? && |ready.value| == |disk.log.value|
                                         + if ActiveRecordFor(disk.log.value, scope, now).Some? then 1 else 0
  {
    if scope in SCOPES && disk.log.Some? && ValidChain(c.sha, disk.log.value) {
      MaxEpochExact(disk.log.value, scope);
      RetireExact(c, disk.log.value, scope, now);
    }
  }

  /** The new record of a rotation can be written after `n` others, as far as its epoch is not concerned. */
  predicate NumbersFit(c: KeyCodec, n: nat, op: Op)
    requires op.Rotate?
  {
    n < U64 && 0 <= op.now < U64 && 0 <= op.now + op.validity < U64 && |(c.encode)(op.key.Public())| < U32
  }

  lemma EpochRoom(c: KeyCodec, records: Log, scope: int)
    requires ValidChain(c.sha, records) && HasHistory(records, scope)
    ensures MaxEpoch(records, scope).Some? && MaxEpoch(records, scope).value >= 0
    ensures MaxEpoch(records, scope).value + 1 < U32 <==> EpochsLeft(records, scope)
  {
    MaxEpochExact(records, scope);
    var i :| TopEpoch(records, scope, i) && records[i].body.epoch == MaxEpoch(records, scope).value;
    assert Linked(c.sha, records, i);
    EncodableExact(records[i].body);
  }

  lemma ActivatesExact(c: KeyCodec, retired: Log, slot: Slot, now: int, validity: int, key: PrivateKey)
    requires slot.0 in SCOPES
    ensures var longer := Activated(c, retired, slot, now, validity, key);
      if KeyFits(c, |retired|, slot.1, now, validity, key) then longer.Ok? else longer == Err(LogRefused(FieldOverflow))
  {
    FreshFits(c, retired, slot.0, slot.1, now, validity, key);
    ExtendedExact(c, retired, FreshBody(c, retired, slot.0, slot.1, now, validity, key));
  }

  lemma RoomExact(c: KeyCodec, epoch: int, room: bool, length: nat, op: Op)
    requires op.Rotate? && epoch >= 0 && (epoch + 1 < U32 <==> room)
    ensures KeyFits(c, length, epoch + 1, op.now, op.validity, op.key) <==> room && NumbersFit(c, length, op)
  {
  }

  /** What a rotation answers: every outcome, with the number of writes before it. */
  lemma RotateAnswer(c: KeyCodec, disk: Disk, op: Op)
    requires op.Rotate? && (disk.log.Some? && ValidChain(c.sha, disk.log.value) ==> KeyIdsWellFormed(disk.log.value))
    ensures var ready := ReadyToRotate(c, disk, op.scope, op.now);
      Step(c, disk, op).1 ==
        if ready.Err? then Failed(ready.error)
        else if op.bits !in {2048, 3072, 4096} then Failed(BadModulusSize)
        else if op.stop == 0 then Stopped
        else if !(EpochsLeft(disk.log.value, op.scope) && NumbersFit(c, |ready.value|, op))
            then Failed(LogRefused(FieldOverflow))
        else if op.stop < 4 then Stopped else Done
  {
    ReadyExact(c, disk, op.scope, op.now);
    var longer := RotatePlanCases(c, disk, op);
    if longer.Some? {
      var records, retired := disk.log.value, ReadyToRotate(c, disk, op.scope, op.now).value;
      EpochRoom(c, records, op.scope);
      RoomExact(c, MaxEpoch(records, op.scope).value, EpochsLeft(records, op.scope), |retired|, op);
      ActivatesExact(c, retired, NextSlot(records, op.scope), op.now, op.validity, op.key);
    }
  }

  /** From a finished rotation on, the issuer signs with the new key until that expires, and then not at all,
      whatever happens to other scopes and whatever stops halfway in the meantime. */
  lemma RotationSigns(c: KeyCodec, disk: Disk, clock: int, op: Op, later: seq<Op>, t: int) returns (record: LogRecord)
    requires op.Rotate? && Inv(c, disk, clock) && Permitted(c, disk, clock, op) && Step(c, disk, op).1 == Done
    requires AllWellFormed(later) && RunPermitted(c, Step(c, disk, op).0, op.now, later)
    requires RunElsewhere(c, Step(c, disk, op).0, later, op.scope) && op.now <= t
    ensures disk.log.Some? && Step(c, disk, op).0.log.Some? && Step(c, disk, op).0.log.value != []
    ensures var after := Step(c, disk, op).0.log.value;
      RotationLogged(c, disk.log.value, after, op) && record == after[|after| - 1]
    ensures SignsUntil(c, Run(c, Step(c, disk, op).0, later), op.scope, t, op.now + op.validity, record)
  {
    var next := Step(c, disk, op).0;
    RotateEffect(c, disk, op);
    RotatedIsLogged(c, disk.log.value, next.log.value, op);
    RotatedActive(c, disk.log.value, next.log.value, clock, op, t);
    record := next.log.value[|next.log.value| - 1];
    StepKeepsInv(c, disk, clock, op);
    RunElsewhereKeeps(c, next, op.now, later, op.scope, t);
    RunKeepsInv(c, next, op.now, later);
    ActiveSigns(c, Run(c, next, later), LastClock(op.now, later), op.scope, t, op.now + op.validity, record);
  }

  // ---------------------------------------------------------------- revocation

  /** What a revocation answers: every outcome, with the number of writes before it. */
  lemma RevokeAnswer(c: KeyCodec, disk: Disk, op: Op)
    requires op.Revoke? && (disk.log.Some? && ValidChain(c.sha, disk.log.value) ==> KeyIdsWellFormed(disk.log.value))
    ensures Step(c, disk, op).1 ==
      if op.scope !in {13, 16, 18, 21} then Failed(BadScope)
      else if disk.log.None? then Failed(StateMissing)
      else if !ValidChain(c.sha, disk.log.value) then Failed(CorruptLog)
      else if ActiveRecordFor(disk.log.value, op.scope, op.now).None? then Failed(NoActiveKey)
      else if !(0 <= op.now < U64 && |disk.log.value| < U64) then Failed(LogRefused(FieldOverflow))
      else if op.stop < 3 then Stopped else Done
  {
    if op.scope in SCOPES && disk.log.Some? && ValidChain(c.sha, disk.log.value)
       && ActiveRecordFor(disk.log.value, op.scope, op.now).Some? {
      RevokedExact(c, disk.log.value, op);
    }
  }

  lemma RevokedExact(c: KeyCodec, records: Log, op: Op)
    requires op.Revoke? && op.scope in SCOPES && ValidChain(c.sha, records) && KeyIdsWellFormed(records)
    requires ActiveRecordFor(records, op.scope, op.now).Some?
    ensures var current := ActiveRecordFor(records, op.scope, op.now).value;
      var longer := Extended(c, records, RevokedBody(records, current, op.now));
      if 0 <= op.now < U64 && |records| < U64
      then longer.Ok? && RevocationLogged(c, records, longer.value, op)
      else longer == Err(LogRefused(FieldOverflow))
  {
    var current := ActiveRecordFor(records, op.scope, op.now).value;
    ActiveRecordExact(records, op.scope, op.now);
    var i :| Candidate(records, op.scope, op.now, i) && records[i] == current;
    assert Linked(c.sha, records, i);
    var body := RevokedBody(records, current, op.now);
    EncodableExact(current.body);
    EncodableExact(body);
    ExtendedExact(c, records, body);
  }

  /** The log that a finished revocation leaves: one more record, which says of the current key that it is
      revoked and leaves its validity as it was. */
  ghost predicate RevocationLogged(c: KeyCodec, before: Log, after: Log, op: Op)
    requires op.Revoke?
  {
    var current := ActiveRecordFor(before, op.scope, op.now);
    && current.Some? && |after| == |before| + 1 && before <= after
    && StatusRecord(after[|before|].body, current.value.body, |before|, op.now, current.value.body.notAfter, Revoked)
  }

  lemma RevokeLogs(c: KeyCodec, disk: Disk, clock: int, op: Op)
    requires op.Revoke? && Inv(c, disk, clock) && Permitted(c, disk, clock, op) && Step(c, disk, op).1 == Done
    ensures disk.log.Some? && Step(c, disk, op).0.log.Some?
    ensures RevocationLogged(c, disk.log.value, Step(c, disk, op).0.log.value, op)
  {
    RevokeEffect(c, disk, op);
    RevokedExact(c, disk.log.value, op);
  }
}
