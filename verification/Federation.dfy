/** The key lifecycle on disk: initialise, rotate and revoke, each a series of file writes after any
    of which the process may stop, and the loaded state the issuer signs from. */
module Federation {
  import opened Wrappers
  import opened Bytes
  import opened Rsa
  import opened TransLog
  import opened ActiveKeys
  import opened Keys

  datatype HeadFile = HeadFile(size: nat, hash: Bytes, ts: int)

  type Slot = (int, int)
  type KeyStore = map<Slot, PrivateKey>

  /** The key files that initialisation writes first; only their presence is modelled. */
  datatype SetupFile = LogKey | LogPublicKey | AttesterKey | AttesterPublicKey

  const SETUP_FILES := [LogKey, LogPublicKey, AttesterKey, AttesterPublicKey]

  /** The files of the state directory that the lifecycle writes. */
  datatype Disk = Disk(setup: set<SetupFile>, log: Option<Log>, pems: KeyStore, head: Option<HeadFile>,
                       keyset: Option<seq<ScopeKeyRecord>>)

  const EMPTY_DISK := Disk({}, None, map[], None, None)

  datatype FedError =
    | BadScope
    | StateMissing
    | CorruptLog
    | NoKeyHistory
    | BadModulusSize
    | NoActiveKey
    | AlreadyInitialized
    | LogRefused(error: LogError)
    | MissingPrivateKey
    | KeyMismatch

  datatype Outcome = Done | Stopped | Failed(error: FedError)

  /** One file write. */
  datatype Write =
    | WriteSetup(file: SetupFile)
    | WritePem(slot: Slot, key: PrivateKey)
    | WriteHead(head: HeadFile)
    | WriteKeyset(keyset: seq<ScopeKeyRecord>)
    | WriteLog(log: Log)

  /** What an operation sets out to write, and the error it then raises, if any. */
  datatype Plan = Plan(steps: seq<Write>, error: Option<FedError>)

  /** An operation with its clock value, the modulus size asked for, its freshly generated keys, and the
      number of writes after which the process stops. */
  datatype Op =
    | Init(now: int, validity: int, bits: int, keys: seq<PrivateKey>, stop: nat)
    | Rotate(scope: int, now: int, validity: int, bits: int, key: PrivateKey, stop: nat)
    | Revoke(scope: int, now: int, stop: nat)

  // ---------------------------------------------------------------- projections

  /** The keyset that relying parties pin: the active key of each scope, in the order of the scopes. */
  function ActiveKeyset(records: Log, now: int): seq<ScopeKeyRecord> {
    KeysetOf(records, SCOPES, now)
  }

  function KeysetOf(records: Log, scopes: seq<int>, now: int): seq<ScopeKeyRecord> {
    if scopes == [] then []
    else
      var r := ActiveRecordFor(records, scopes[0], now);
      (if r.Some? then [ToScopeKeyRecord(r.value)] else []) + KeysetOf(records, scopes[1..], now)
  }

  function MaxEpoch(records: Log, scope: int): Option<int> {
    if records == [] then None
    else
      var before, last := MaxEpoch(records[..|records| - 1], scope), records[|records| - 1].body;
      if last.scope == scope && (before.None? || last.epoch > before.value) then Some(last.epoch) else before
  }

  // ---------------------------------------------------------------- plans

  function RetiredBody(records: Log, current: LogRecord, now: int): Body {
    current.body.(seqNo := |records|, ts := now, notAfter := now, status := Retired)
  }

  function RevokedBody(records: Log, current: LogRecord, now: int): Body {
    current.body.(seqNo := |records|, ts := now, status := Revoked)
  }

  function FreshBody(c: KeyCodec, records: Log, scope: int, epoch: int, now: int, validity: int,
                     key: PrivateKey): Body
  {
    Body(|records|, now, scope, epoch, KeyIdOf(c, key.Public()), (c.encode)(key.Public()), now, now + validity, Active)
  }

  /** The log with one more record, or the reason why the record is refused. */
  function Extended(c: KeyCodec, records: Log, body: Body): Result<Log, FedError>
    requires body.seqNo == |records|
  {
    match AppendRecord(c.sha, records, body)
    case Err(e) => Err(LogRefused(e))
    case Ok(r) => Ok(records + [r])
  }

  function Publish(records: Log, now: int): seq<Write> {
    [WriteHead(HeadFile(|records|, Head(records), now)), WriteKeyset(ActiveKeyset(records, now)), WriteLog(records)]
  }

  /** Publish a log that may have been refused a record. */
  function PublishWith(longer: Result<Log, FedError>, now: int): Plan {
    if longer.Err? then Plan([], Some(longer.error)) else Plan(Publish(longer.value, now), None)
  }

  /** One write, and then the rest of a plan. */
  function After(w: Write, rest: Plan): Plan {
    Plan([w] + rest.steps, rest.error)
  }

  /** The log with the current key, if any, retired. */
  function Retire(c: KeyCodec, records: Log, scope: int, now: int): Result<Log, FedError> {
    var current := ActiveRecordFor(records, scope, now);
    if current.None? then Ok(records)
    else Extended(c, records, RetiredBody(records, current.value, now))
  }

  /** The log with a new active key. */
  function Activated(c: KeyCodec, records: Log, slot: Slot, now: int, validity: int,
                     key: PrivateKey): Result<Log, FedError>
  {
    Extended(c, records, FreshBody(c, records, slot.0, slot.1, now, validity, key))
  }

  /** The checks of a rotation, up to the log with the current key retired. */
  ghost function ReadyToRotate(c: KeyCodec, disk: Disk, scope: int, now: int): (r: Result<Log, FedError>)
    ensures r.Ok? ==> scope in SCOPES && disk.log.Some? && ValidChain(c.sha, disk.log.value)
    ensures r.Ok? ==> MaxEpoch(disk.log.value, scope).Some? && Retire(c, disk.log.value, scope, now) == r
  {
    if scope !in SCOPES then Err(BadScope)
    else if disk.log.None? then Err(StateMissing)
    else if !ValidChain(c.sha, disk.log.value) then Err(CorruptLog)
    else if MaxEpoch(disk.log.value, scope).None? then Err(NoKeyHistory)
    else Retire(c, disk.log.value, scope, now)
  }

  ghost function RotatePlan(c: KeyCodec, disk: Disk, scope: int, now: int, validity: int, bits: int,
                            key: PrivateKey): Plan
  {
    match ReadyToRotate(c, disk, scope, now)
    case Err(e) => Plan([], Some(e))
    case Ok(retired) =>
      if bits !in ALLOWED_MODULUS_BITS then Plan([], Some(BadModulusSize)) else
      var slot := (scope, MaxEpoch(disk.log.value, scope).value + 1);
      After(WritePem(slot, key), PublishWith(Activated(c, retired, slot, now, validity, key), now))
  }

  ghost function RevokePlan(c: KeyCodec, disk: Disk, scope: int, now: int): Plan {
    if scope !in SCOPES then Plan([], Some(BadScope))
    else if disk.log.None? then Plan([], Some(StateMissing))
    else if !ValidChain(c.sha, disk.log.value) then Plan([], Some(CorruptLog))
    else
      var records := disk.log.value;
      var current := ActiveRecordFor(records, scope, now);
      if current.None? then Plan([], Some(NoActiveKey))
      else
        PublishWith(Extended(c, records, RevokedBody(records, current.value, now)), now)
  }

  function SetupWrites(): (steps: seq<Write>)
    ensures |steps| == |SETUP_FILES|
  {
    seq(|SETUP_FILES|, i requires 0 <= i < |SETUP_FILES| => WriteSetup(SETUP_FILES[i]))
  }

  /** The files written and the log built after `n` scopes, or the error on the way. */
  function InitRecords(c: KeyCodec, scopes: seq<int>, now: int, validity: int, keys: seq<PrivateKey>, n: nat)
    : (seq<Write>, Result<Log, FedError>)
    requires n <= |scopes| == |keys|
  {
    if n == 0 then (SetupWrites(), Ok([]))
    else
      var (steps, before) := InitRecords(c, scopes, now, validity, keys, n - 1);
      if before.Err? then (steps, before)
      else
        var scope := scopes[n - 1];
        var pem := WritePem((scope, 1), keys[n - 1]);
        (steps + [pem], Extended(c, before.value, FreshBody(c, before.value, scope, 1, now, validity, keys[n - 1])))
  }

  function InitPlan(c: KeyCodec, disk: Disk, now: int, validity: int, bits: int, keys: seq<PrivateKey>): Plan
    requires |keys| == |SCOPES|
  {
    if disk.log.Some? then Plan([], Some(AlreadyInitialized))
    else if bits !in ALLOWED_MODULUS_BITS then Plan(SetupWrites(), Some(BadModulusSize))
    else
      var (steps, records) := InitRecords(c, SCOPES, now, validity, keys, |SCOPES|);
      var rest := FinishInit(records, now);
      Plan(steps + rest.steps, rest.error)
  }

  /** The public files of a new state: log, head and keyset, in this order. */
  function FinishInit(records: Result<Log, FedError>, now: int): Plan {
    match records
    case Err(e) => Plan([], Some(e))
    case Ok(log) =>
      Plan([WriteLog(log), WriteHead(HeadFile(|log|, Head(log), now)), WriteKeyset(ActiveKeyset(log, now))], None)
  }

  predicate WellFormed(op: Op) {
    op.Init? ==> |op.keys| == |SCOPES|
  }

  ghost function PlanOf(c: KeyCodec, disk: Disk, op: Op): Plan
    requires WellFormed(op)
  {
    match op
    case Init(now, validity, bits, keys, _) => InitPlan(c, disk, now, validity, bits, keys)
    case Rotate(scope, now, validity, bits, key, _) => RotatePlan(c, disk, scope, now, validity, bits, key)
    case Revoke(scope, now, _) => RevokePlan(c, disk, scope, now)
  }

  function ApplyWrite(disk: Disk, w: Write): Disk {
    match w
    case WriteSetup(file) => disk.(setup := disk.setup + {file})
    case WritePem(slot, key) => disk.(pems := disk.pems[slot := key])
    case WriteHead(head) => disk.(head := Some(head))
    case WriteKeyset(keyset) => disk.(keyset := Some(keyset))
    case WriteLog(log) => disk.(log := Some(log))
  }

  function ApplyWrites(disk: Disk, steps: seq<Write>): Disk {
    if steps == [] then disk
    else ApplyWrite(ApplyWrites(disk, steps[..|steps| - 1]), steps[|steps| - 1])
  }

  /** The plan cut off after `stop` writes. */
  function Execute(disk: Disk, plan: Plan, stop: nat): (Disk, Outcome) {
    if stop < |plan.steps| then (ApplyWrites(disk, plan.steps[..stop]), Stopped)
    else (ApplyWrites(disk, plan.steps), if plan.error.Some? then Failed(plan.error.value) else Done)
  }

  ghost function Step(c: KeyCodec, disk: Disk, op: Op): (Disk, Outcome)
    requires WellFormed(op)
  {
    Execute(disk, PlanOf(c, disk, op), op.stop)
  }

  // ---------------------------------------------------------------- the imperative operations

  /** The state directory. Each method performs its writes one by one and gives up after `stop`. */
  class StateDir {
    const codec: KeyCodec
    var setup: set<SetupFile>
    var log: Option<Log>
    var pems: KeyStore
    var head: Option<HeadFile>
    var keyset: Option<seq<ScopeKeyRecord>>

    constructor (codec: KeyCodec)
      ensures this.codec == codec
      ensures Contents() == EMPTY_DISK
    {
      this.codec := codec;
      setup, log, pems, head, keyset := {}, None, map[], None, None;
    }

    function Contents(): Disk
      reads this
    {
      Disk(setup, log, pems, head, keyset)
    }

    /** Head, keyset and log, three separate replacements in this order. */
    method PublishFiles(longer: Result<Log, FedError>, now: int, stop: nat) returns (o: Outcome)
      modifies this
      ensures (Contents(), o) == Execute(old(Contents()), PublishWith(longer, now), stop)
      ensures o == Done ==> longer.Ok? && log == Some(longer.value)
    {
      if longer.Err? { return Failed(longer.error); }
      var records := longer.value;
      ghost var before, steps := Contents(), Publish(records, now);
      assert steps[..1] == [steps[0]] && steps[..2] == [steps[0], steps[1]];
      assert steps[..2][..1] == steps[..1] && steps[..3] == steps;
      if stop == 0 { return Stopped; }
      head := Some(HeadFile(|records|, Head(records), now));
      assert Contents() == ApplyWrites(before, steps[..1]);
      if stop == 1 { return Stopped; }
      keyset := Some(ActiveKeyset(records, now));
      assert Contents() == ApplyWrites(before, steps[..2]);
      if stop == 2 { return Stopped; }
      log := Some(records);
      assert Contents() == ApplyWrites(before, steps);
      o := Done;
    }

    /** The retirement record, if some key is active; it precedes the record of the new key. */
    method RetireCurrent(records: Log, scope: int, now: int) returns (r: Result<Log, FedError>)
      ensures r == Retire(codec, records, scope, now)
    {
      var current := FindActiveRecord(records, scope, now);
      if current.None? { return Ok(records); }
      r := Extended(codec, records, RetiredBody(records, current.value, now));
    }

    /** The first half of a rotation: its checks, and the log with the current key retired. */
    method PrepareRotation(scope: int, now: int) returns (r: Result<Log, FedError>)
      ensures r == ReadyToRotate(codec, Contents(), scope, now)
    {
      if scope !in SCOPES { return Err(BadScope); }
      if log.None? { return Err(StateMissing); }
      var records := log.value;
      var chain := VerifyChain(codec.sha, records);
      if chain.Err? { return Err(CorruptLog); }
      if MaxEpoch(records, scope).None? { return Err(NoKeyHistory); }
      r := RetireCurrent(records, scope, now);
    }

    /** Rotate; the answer of a finished rotation is the record of the new key. */
    method RotateScopeKey(scope: int, now: int, validity: int, bits: int, key: PrivateKey, stop: nat)
      returns (o: Outcome, added: Option<ScopeKeyRecord>)
      modifies this
      ensures (Contents(), o)
          == Execute(old(Contents()), RotatePlan(codec, old(Contents()), scope, now, validity, bits, key), stop)
      ensures added.Some? <==> o == Done
      ensures o == Done ==> log.Some? && log.value != [] && added.value == ToScopeKeyRecord(log.value[|log.value| - 1])
    {
      var retired := PrepareRotation(scope, now);
      if retired.Err? { return Failed(retired.error), None; }
      if bits !in ALLOWED_MODULUS_BITS { return Failed(BadModulusSize), None; }
      var epoch := MaxEpoch(log.value, scope).value + 1;
      o, added := IntroduceKey(retired.value, (scope, epoch), now, validity, key, stop);
    }

    /** The second half of a rotation: the key file, then the new record and the public files. */
    method IntroduceKey(records: Log, slot: Slot, now: int, validity: int, key: PrivateKey, stop: nat)
      returns (o: Outcome, added: Option<ScopeKeyRecord>)
      modifies this
      ensures (Contents(), o) == Execute(old(Contents()), After(WritePem(slot, key),
                PublishWith(Activated(codec, records, slot, now, validity, key), now)), stop)
      ensures added.Some? <==> o == Done
      ensures o == Done ==> log.Some? && log.value != [] && added.value == ToScopeKeyRecord(log.value[|log.value| - 1])
    {
      var longer := Activated(codec, records, slot, now, validity, key);
      ExecuteAfter(Contents(), WritePem(slot, key), PublishWith(longer, now), stop);
      if stop == 0 { return Stopped, None; }
      WriteKeyFile(slot, key);
      o := PublishFiles(longer, now, stop - 1);
      added := if o == Done then Some(ToScopeKeyRecord(longer.value[|longer.value| - 1])) else None;
    }

    method RevokeScopeKey(scope: int, now: int, stop: nat) returns (o: Outcome)
      modifies this
      ensures (Contents(), o) == Execute(old(Contents()), RevokePlan(codec, old(Contents()), scope, now), stop)
    {
      if scope !in SCOPES { return Failed(BadScope); }
      if log.None? { return Failed(StateMissing); }
      var records := log.value;
      var chain := VerifyChain(codec.sha, records);
      if chain.Err? { return Failed(CorruptLog); }
      var current := FindActiveRecord(records, scope, now);
      if current.None? { return Failed(NoActiveKey); }
      o := PublishFiles(Extended(codec, records, RevokedBody(records, current.value, now)), now, stop);
    }

    method WriteKeyFile(slot: Slot, key: PrivateKey)
      modifies this
      ensures Contents() == ApplyWrite(old(Contents()), WritePem(slot, key))
    {
      pems := pems[slot := key];
    }

    method WriteSetupFile(file: SetupFile)
      modifies this
      ensures Contents() == ApplyWrite(old(Contents()), WriteSetup(file))
    {
      setup := setup + {file};
    }

    /** The log key and the attester's key, private and public half each; `left` is what remains of the
        number of writes before the process stops. */
    method WriteSetupFiles(stop: nat) returns (stopped: bool, left: nat)
      modifies this
      ensures stopped <==> stop < |SETUP_FILES|
      ensures if stopped then Contents() == ApplyWrites(old(Contents()), SetupWrites()[..stop])
              else left == stop - |SETUP_FILES| && Contents() == ApplyWrites(old(Contents()), SetupWrites())
    {
      ghost var before, steps := Contents(), SetupWrites();
      left := stop;
      for i := 0 to |SETUP_FILES|
        invariant left == stop - i
        invariant Contents() == ApplyWrites(before, steps[..i])
      {
        if left == 0 { return true, left; }
        ApplyOne(before, steps[..i], steps[i]);
        assert steps[..i + 1] == steps[..i] + [steps[i]];
        WriteSetupFile(SETUP_FILES[i]);
        left := left - 1;
      }
      assert steps[..|steps|] == steps;
      stopped := false;
    }

    /** One key file per scope, each followed by building its log record, after the setup files that were
        written on `before`; `left` is what remains of the number of writes before the process stops. */
    method WriteScopeKeys(ghost before: Disk, scopes: seq<int>, now: int, validity: int, keys: seq<PrivateKey>,
                          stop: nat)
      returns (stopped: bool, r: Result<Log, FedError>, left: nat)
      requires |keys| == |scopes| && Contents() == ApplyWrites(before, SetupWrites())
      modifies this
      ensures var (steps, records) := InitRecords(codec, scopes, now, validity, keys, |scopes|);
        var written := |SETUP_FILES| + stop;
        if written < |steps| then stopped && Contents() == ApplyWrites(before, steps[..written])
        else !stopped && r == records && left == written - |steps| && Contents() == ApplyWrites(before, steps)
    {
      ghost var (steps, _) := InitRecords(codec, scopes, now, validity, keys, |scopes|);
      r, left := Ok([]), stop;
      var i := 0;
      while i < |scopes| && r.Ok?
        invariant i <= |scopes| && left == stop - i
        invariant InitRecords(codec, scopes, now, validity, keys, i).1 == r
        invariant |InitRecords(codec, scopes, now, validity, keys, i).0| == |SETUP_FILES| + i
        invariant Contents() == ApplyWrites(before, InitRecords(codec, scopes, now, validity, keys, i).0)
      {
        ghost var done := InitRecords(codec, scopes, now, validity, keys, i).0;
        InitWritesGrow(codec, scopes, now, validity, keys, i, i + 1);
        if left == 0 {
          InitWritesGrow(codec, scopes, now, validity, keys, i + 1, |scopes|);
          assert done == steps[..|SETUP_FILES| + stop];
          return true, r, left;
        }
        ApplyOne(before, done, WritePem((scopes[i], 1), keys[i]));
        WriteKeyFile((scopes[i], 1), keys[i]);
        r := Extended(codec, r.value, FreshBody(codec, r.value, scopes[i], 1, now, validity, keys[i]));
        i, left := i + 1, left - 1;
      }
      if r.Err? { InitFailureLasts(codec, scopes, now, validity, keys, i, |scopes|); }
      stopped := false;
    }

    /** The setup files, and then the scope keys. */
    method WriteKeyFiles(now: int, validity: int, keys: seq<PrivateKey>, stop: nat)
      returns (stopped: bool, r: Result<Log, FedError>, left: nat)
      requires |keys| == |SCOPES|
      modifies this
      ensures var (steps, records) := InitRecords(codec, SCOPES, now, validity, keys, |SCOPES|);
        if stop < |steps| then stopped && Contents() == ApplyWrites(old(Contents()), steps[..stop])
        else !stopped && r == records && left == stop - |steps| && Contents() == ApplyWrites(old(Contents()), steps)
    {
      ghost var before := Contents();
      ghost var steps := InitRecords(codec, SCOPES, now, validity, keys, |SCOPES|).0;
      InitWritesGrow(codec, SCOPES, now, validity, keys, 0, |SCOPES|);
      r := Ok([]);
      stopped, left := WriteSetupFiles(stop);
      if stopped {
        assert SetupWrites()[..stop] == steps[..stop];
        return;
      }
      stopped, r, left := WriteScopeKeys(before, SCOPES, now, validity, keys, left);
    }

    /** Initialise. A modulus size outside the policy is noticed when the first scope key is generated,
        after the setup files. */
    method InitState(now: int, validity: int, bits: int, keys: seq<PrivateKey>, stop: nat) returns (o: Outcome)
      requires |keys| == |SCOPES|
      modifies this
      ensures (Contents(), o)
          == Execute(old(Contents()), InitPlan(codec, old(Contents()), now, validity, bits, keys), stop)
    {
      if log.Some? { return Failed(AlreadyInitialized); }
      if bits !in ALLOWED_MODULUS_BITS {
        var cut, _ := WriteSetupFiles(stop);
        return if cut then Stopped else Failed(BadModulusSize);
      }
      InitCases(codec, Contents(), now, validity, bits, keys, stop);
      var stopped, records, left := WriteKeyFiles(now, validity, keys, stop);
      if stopped { return Stopped; }
      o := FinishInitFiles(records, now, left);
    }

    method FinishInitFiles(records: Result<Log, FedError>, now: int, stop: nat) returns (o: Outcome)
      modifies this
      ensures (Contents(), o) == Execute(old(Contents()), FinishInit(records, now), stop)
    {
      if records.Err? { return Failed(records.error); }
      ghost var before, steps := Contents(), FinishInit(records, now).steps;
      assert steps[..1] == [steps[0]] && steps[..2] == [steps[0], steps[1]];
      assert steps[..2][..1] == steps[..1] && steps[..3] == steps;
      if stop == 0 { return Stopped; }
      log := Some(records.value);
      assert Contents() == ApplyWrites(before, steps[..1]);
      if stop == 1 { return Stopped; }
      head := Some(HeadFile(|records.value|, Head(records.value), now));
      assert Contents() == ApplyWrites(before, steps[..2]);
      if stop == 2 { return Stopped; }
      keyset := Some(ActiveKeyset(records.value, now));
      assert Contents() == ApplyWrites(before, steps);
      o := Done;
    }
  }

  lemma ApplyOne(disk: Disk, done: seq<Write>, w: Write)
    ensures ApplyWrites(disk, done + [w]) == ApplyWrite(ApplyWrites(disk, done), w)
  {
    assert (done + [w])[..|done|] == done;
  }

  lemma {:induction false} ApplyConcat(disk: Disk, a: seq<Write>, b: seq<Write>)
    ensures ApplyWrites(disk, a + b) == ApplyWrites(ApplyWrites(disk, a), b)
  {
    if b == [] {
      assert a + b == a;
    } else {
      var n := |b| - 1;
      ApplyConcat(disk, a, b[..n]);
      assert (a + b)[..|a + b| - 1] == a + b[..n];
    }
  }

  /** Executing a plan is executing its first part and then the rest. */
  lemma ApplyAfter(disk: Disk, first: seq<Write>, rest: Plan, stop: nat)
    requires |first| <= stop
    ensures Execute(disk, Plan(first + rest.steps, rest.error), stop)
         == Execute(ApplyWrites(disk, first), rest, stop - |first|)
  {
    ApplyConcat(disk, first, rest.steps);
    if stop < |first + rest.steps| {
      assert (first + rest.steps)[..stop] == first + rest.steps[..stop - |first|];
      ApplyConcat(disk, first, rest.steps[..stop - |first|]);
    }
  }

  /** Initialisation in two stages: the key files, then the public files. */
  lemma InitCases(c: KeyCodec, disk: Disk, now: int, validity: int, bits: int, keys: seq<PrivateKey>, stop: nat)
    requires |keys| == |SCOPES| && disk.log.None? && bits in ALLOWED_MODULUS_BITS
    ensures var (steps, records) := InitRecords(c, SCOPES, now, validity, keys, |SCOPES|);
      Execute(disk, InitPlan(c, disk, now, validity, bits, keys), stop) ==
        if stop < |steps| then (ApplyWrites(disk, steps[..stop]), Stopped)
        else Execute(ApplyWrites(disk, steps), FinishInit(records, now), stop - |steps|)
  {
    var (steps, records) := InitRecords(c, SCOPES, now, validity, keys, |SCOPES|);
    var rest := FinishInit(records, now);
    if stop < |steps| {
      assert (steps + rest.steps)[..stop] == steps[..stop];
    } else {
      ApplyAfter(disk, steps, rest, stop);
    }
  }

  lemma {:induction false} InitWritesGrow(c: KeyCodec, scopes: seq<int>, now: int, validity: int, keys: seq<PrivateKey>,
                                          n: nat, m: nat)
    requires n <= m <= |scopes| == |keys|
    ensures InitRecords(c, scopes, now, validity, keys, n).0 <= InitRecords(c, scopes, now, validity, keys, m).0
  {
    if n < m { InitWritesGrow(c, scopes, now, validity, keys, n, m - 1); }
  }

  lemma ExecuteAfter(disk: Disk, w: Write, rest: Plan, stop: nat)
    ensures Execute(disk, After(w, rest), stop)
         == if stop == 0 then (disk, Stopped) else Execute(ApplyWrite(disk, w), rest, stop - 1)
  {
    ApplyOne(disk, [], w);
    assert [] + [w] == [w];
    if stop > 0 { ApplyAfter(disk, [w], rest, stop); }
  }

  lemma {:induction false} InitFailureLasts(c: KeyCodec, scopes: seq<int>, now: int, validity: int,
                                            keys: seq<PrivateKey>, n: nat, m: nat)
    requires n <= m <= |scopes| == |keys| && InitRecords(c, scopes, now, validity, keys, n).1.Err?
    ensures InitRecords(c, scopes, now, validity, keys, m) == InitRecords(c, scopes, now, validity, keys, n)
  {
    if n < m { InitFailureLasts(c, scopes, now, validity, keys, n, m - 1); }
  }
}
