/** All interleavings of the issuer's handlers. Each handler is cut where it touches shared state;
    between its steps other handlers run, each with the clock value it read at its start. Enrolment is
    cut at its lookup, its write and its refetch; issuance at the account lookup, the request id and
    the limiter. */
module IssuerRuns {
  import opened Wrappers
  import opened Bytes
  import opened TransLog
  import opened DeviceKey
  import opened IssuerTables
  import opened RateLimit
  import opened Issuer
  import opened Rsa
  import Federation
  import Rsabssa

  /** Where a handler stands, with what it has read so far. */
  datatype Stage =
    | Attesting(devicePub: Bytes, now: int, existing: Option<Account>)
    | Outrun(devicePub: Bytes)
    | Authentic(account: Account, req: IssueRequest, now: int)
    | Recorded(account: Account, req: IssueRequest, now: int, mark: nat)
  {
    /** An issuance that has been authenticated. */
    predicate Issuing() { Authentic? || Recorded? }
  }

  /** A request that the limiter admitted: the account version read, the request, the clock value read,
      the number of its mark, and whether a blind signature was returned. */
  datatype Grant = Grant(account: Account, req: IssueRequest, now: int, mark: nat, signed: bool)

  /** The shared tables, the handlers under way, and the history that the claims speak about. */
  datatype State = State(
    rows: Rows, seen: Seen, buckets: Buckets, handlers: map<nat, Stage>,
    answers: seq<(Bytes, Bytes)>, marks: seq<Mark>, calls: seq<Call>, grants: seq<Grant>)

  datatype Step =
    | EnrollRead(handler: nat, devicePub: Bytes, now: int)
    | EnrollWrite(handler: nat, maxScope: int, uuid: Bytes)
    | EnrollRefetch(handler: nat)
    | EnrollFail(handler: nat)
    | IssueRead(handler: nat, req: IssueRequest, now: int)
    | IssueMark(handler: nat)
    | IssueAdmit(handler: nat, signable: bool)

  const INITIAL := State([], map[], map[], map[], [], [], [], [])

  function Without(handlers: map<nat, Stage>, h: nat): map<nat, Stage> {
    handlers - {h}
  }

  /** The device key and the account id it is answered with. */
  function Answered(s: State, devicePub: Bytes, id: Bytes): State {
    s.(answers := s.answers + [(devicePub, id)])
  }

  /** Look the device key up; answer a live account as it stands, and otherwise go on to attestation. */
  function AfterEnrollRead(env: Env, s: State, h: nat, devicePub: Bytes, now: int): State {
    if h in s.handlers || !(env.keyDecodes)(devicePub) then s
    else
      var existing := FindByDevice(s.rows, devicePub);
      if LiveAccount(existing, now) then Answered(s, devicePub, existing.value.accountId)
      else s.(handlers := s.handlers[h := Attesting(devicePub, now, existing)])
  }

  /** Renew what was found, or insert; a refused insert leaves the handler to look for the winner. */
  function AfterEnrollWrite(s: State, h: nat, maxScope: int, uuid: Bytes): State {
    if h !in s.handlers || !s.handlers[h].Attesting? then s
    else
      var at := s.handlers[h];
      var (written, rows) := EnrollFirst(s.rows, at.devicePub, at.now, at.existing, maxScope, uuid);
      if written.None? then s.(handlers := s.handlers[h := Outrun(at.devicePub)])
      else Answered(s.(rows := rows, handlers := Without(s.handlers, h)), at.devicePub, written.value.accountId)
  }

  function AfterEnrollRefetch(s: State, h: nat): State {
    if h !in s.handlers || !s.handlers[h].Outrun? then s
    else
      var devicePub := s.handlers[h].devicePub;
      var winner := Refetched(s.rows, devicePub);
      var rest := s.(handlers := Without(s.handlers, h));
      if winner.Ok? then Answered(rest, devicePub, winner.value.accountId) else rest
  }

  function AfterEnrollFail(s: State, h: nat): State {
    if h !in s.handlers || !s.handlers[h].Attesting? then s else s.(handlers := Without(s.handlers, h))
  }

  function AfterIssueRead(env: Env, s: State, h: nat, req: IssueRequest, now: int): State {
    var auth := Authenticated(env, s.rows, req, now);
    if h in s.handlers || auth.Err? then s
    else s.(handlers := s.handlers[h := Authentic(auth.value, req, now)])
  }

  function AfterIssueMark(s: State, h: nat): State {
    if h !in s.handlers || !s.handlers[h].Authentic? then s
    else
      var at := s.handlers[h];
      var id := at.req.fields.requestId;
      s.(seen := Marked(s.seen, id, at.now, DEFAULT_WINDOW),
         marks := s.marks + [Mark(id, at.req.fields.ts, at.now)],
         handlers := if IsNew(s.seen, id, at.now, DEFAULT_WINDOW)
                     then s.handlers[h := Recorded(at.account, at.req, at.now, |s.marks|)]
                     else Without(s.handlers, h))
  }

  function AfterIssueAdmit(l: Limits, s: State, h: nat, signable: bool): State
    requires l.Valid()
  {
    if h !in s.handlers || !s.handlers[h].Recorded? then s
    else
      var at := s.handlers[h];
      var rest := s.(handlers := Without(s.handlers, h));
      if at.req.fields.scope > at.account.maxScope then rest
      else
        var (refusal, buckets) := Admitted(l, s.buckets, at.account, at.req, at.now);
        rest.(buckets := buckets,
              calls := s.calls + [Call(at.account.accountId, at.now as real)],
              grants := if refusal.Some? then s.grants
                        else s.grants + [Grant(at.account, at.req, at.now, at.mark, signable)])
  }

  /** One step; a step of a handler that is not at that point does nothing. */
  function Next(env: Env, l: Limits, s: State, step: Step): State
    requires l.Valid()
  {
    match step
    case EnrollRead(h, devicePub, now) => AfterEnrollRead(env, s, h, devicePub, now)
    case EnrollWrite(h, maxScope, uuid) => AfterEnrollWrite(s, h, maxScope, uuid)
    case EnrollRefetch(h) => AfterEnrollRefetch(s, h)
    case EnrollFail(h) => AfterEnrollFail(s, h)
    case IssueRead(h, req, now) => AfterIssueRead(env, s, h, req, now)
    case IssueMark(h) => AfterIssueMark(s, h)
    case IssueAdmit(h, signable) => AfterIssueAdmit(l, s, h, signable)
  }

  function Run(env: Env, l: Limits, steps: seq<Step>): State
    requires l.Valid()
  {
    if steps == [] then INITIAL else Next(env, l, Run(env, l, steps[..|steps| - 1]), steps[|steps| - 1])
  }

  /** One issuance whose three steps are not interrupted leaves the tables as the sequential handler
      does, and records a grant with a signature exactly when that handler answers with one. */
  lemma IssueStepsCompose(env: Env, l: Limits, s: State, h: nat, req: IssueRequest, now: int, signable: bool,
                          signer: Result<(LogRecord, PrivateKey), Federation.FedError>, sig: Rsabssa.Signature)
    requires l.Valid() && h !in s.handlers && (signable <==> signer.Ok? && sig.Ok?)
    ensures var end := AfterIssueAdmit(l, AfterIssueMark(AfterIssueRead(env, s, h, req, now), h), h, signable);
      var (answer, seen, buckets) := Issued(env, l, s.rows, s.seen, s.buckets, req, now, signer, sig);
      && end.rows == s.rows && end.seen == seen && end.buckets == buckets && end.handlers == s.handlers
      && (answer.Ok? <==> NewGrant(s, end).Some? && NewGrant(s, end).value.signed)
      && (NewGrant(s, end).Some? ==> NewGrant(s, end).value.req == req && NewGrant(s, end).value.now == now)
  {
    var auth := Authenticated(env, s.rows, req, now);
    var read := AfterIssueRead(env, s, h, req, now);
    if auth.Ok? {
      MarkThenAdmit(l, read, h, auth.value, req, now, signable);
    } else {
      assert read == s;
    }
  }

  /** The one grant by which a later history is longer, if there is one. */
  function NewGrant(s: State, later: State): Option<Grant> {
    var n := |s.grants|;
    if |later.grants| == n + 1 && later.grants[..n] == s.grants then Some(later.grants[n]) else None
  }

  lemma MarkThenAdmit(l: Limits, read: State, h: nat, account: Account, req: IssueRequest, now: int, signable: bool)
    requires l.Valid() && h in read.handlers && read.handlers[h] == Authentic(account, req, now)
    ensures var end := AfterIssueAdmit(l, AfterIssueMark(read, h), h, signable);
      var isNew := IsNew(read.seen, req.fields.requestId, now, DEFAULT_WINDOW);
      && end.rows == read.rows && end.handlers == Without(read.handlers, h)
      && end.seen == Marked(read.seen, req.fields.requestId, now, DEFAULT_WINDOW)
      && end.buckets == (if isNew then Admitted(l, read.buckets, account, req, now).1 else read.buckets)
      && NewGrant(read, end) == if isNew && Admitted(l, read.buckets, account, req, now).0.None?
                                then Some(Grant(account, req, now, |read.marks|, signable)) else None
  {
    var marked := AfterIssueMark(read, h);
    if IsNew(read.seen, req.fields.requestId, now, DEFAULT_WINDOW) {
      assert marked.handlers[h] == Recorded(account, req, now, |read.marks|);
      assert Without(marked.handlers, h) == Without(read.handlers, h);
    } else {
      assert h !in marked.handlers;
    }
  }

  /** One enrolment that is not interrupted leaves the accounts as the sequential handler does, and
      answers with an account id exactly when, and with which, that handler does. */
  lemma EnrollStepsCompose(env: Env, s: State, h: nat, devicePub: Bytes, now: int, attested: Result<int, EnrollError>,
                           uuid: Bytes)
    requires h !in s.handlers
    ensures var read := AfterEnrollRead(env, s, h, devicePub, now);
      var end := if attested.Err? then AfterEnrollFail(read, h)
                 else AfterEnrollRefetch(AfterEnrollWrite(read, h, attested.value, uuid), h);
      var (answer, rows) := Enrolled(env, s.rows, devicePub, now, attested, uuid);
      && end.rows == rows && end.handlers == s.handlers
      && end.answers == if answer.Ok? then s.answers + [(devicePub, answer.value.accountId)] else s.answers
  {
    var read := AfterEnrollRead(env, s, h, devicePub, now);
    if h in read.handlers {
      assert Without(read.handlers, h) == s.handlers;
      if attested.Ok? { WriteThenRefetch(read, h, attested.value, uuid); }
    }
  }

  lemma WriteThenRefetch(read: State, h: nat, maxScope: int, uuid: Bytes)
    requires h in read.handlers && read.handlers[h].Attesting?
    ensures var end, at := AfterEnrollRefetch(AfterEnrollWrite(read, h, maxScope, uuid), h), read.handlers[h];
      var (written, rows) := EnrollFirst(read.rows, at.devicePub, at.now, at.existing, maxScope, uuid);
      var answer := if written.Some? then Ok(written.value) else Refetched(rows, at.devicePub);
      && end.rows == rows && end.handlers == Without(read.handlers, h)
      && end.answers == if answer.Ok? then read.answers + [(at.devicePub, answer.value.accountId)] else read.answers
  {
    var at, wrote := read.handlers[h], AfterEnrollWrite(read, h, maxScope, uuid);
    if h in wrote.handlers {
      assert wrote.handlers[h] == Outrun(at.devicePub);
      assert Without(wrote.handlers, h) == Without(read.handlers, h);
    }
  }

  // ---------------------------------------------------------------- one account per device

  /** The device key has this account id in the table. */
  ghost predicate Bound(rows: Rows, devicePub: Bytes, id: Bytes) {
    exists i :: 0 <= i < |rows| && rows[i].devicePub == devicePub && rows[i].accountId == id
  }

  /** Every account version that a handler or a grant holds is bound in the table. */
  ghost predicate HandlersBound(rows: Rows, handlers: map<nat, Stage>) {
    && (forall h :: h in handlers && handlers[h].Attesting? && handlers[h].existing.Some? ==>
          handlers[h].existing.value.devicePub == handlers[h].devicePub
          && Bound(rows, handlers[h].devicePub, handlers[h].existing.value.accountId))
    && (forall h :: h in handlers && handlers[h].Issuing() ==>
          Bound(rows, handlers[h].account.devicePub, handlers[h].account.accountId))
  }

  ghost predicate HistoryBound(rows: Rows, s: State) {
    && (forall i :: 0 <= i < |s.answers| ==> Bound(rows, s.answers[i].0, s.answers[i].1))
    && (forall i :: 0 <= i < |s.grants| ==> Bound(rows, s.grants[i].account.devicePub, s.grants[i].account.accountId))
  }

  ghost predicate Binding(s: State) {
    UniqueRows(s.rows) && HandlersBound(s.rows, s.handlers) && HistoryBound(s.rows, s)
  }

  /** The table only grows, and updates leave ids and device keys as they are. */
  ghost predicate RowsKept(before: Rows, after: Rows) {
    |before| <= |after|
    && forall i :: 0 <= i < |before| ==>
         after[i].accountId == before[i].accountId && after[i].devicePub == before[i].devicePub
  }

  lemma BoundKept(before: Rows, after: Rows, devicePub: Bytes, id: Bytes)
    requires RowsKept(before, after) && Bound(before, devicePub, id)
    ensures Bound(after, devicePub, id)
  {
    var i :| 0 <= i < |before| && before[i].devicePub == devicePub && before[i].accountId == id;
    assert after[i].devicePub == devicePub && after[i].accountId == id;
  }

  lemma RowBound(rows: Rows, a: Account)
    requires a in rows
    ensures Bound(rows, a.devicePub, a.accountId)
  {
    var i :| 0 <= i < |rows| && rows[i] == a;
  }

  lemma EnrollFirstKeepsRows(rows: Rows, devicePub: Bytes, now: int, existing: Option<Account>, maxScope: int,
                             uuid: Bytes)
    requires UniqueRows(rows)
    requires existing.Some? ==> Bound(rows, devicePub, existing.value.accountId)
    ensures var (written, after) := EnrollFirst(rows, devicePub, now, existing, maxScope, uuid);
      && UniqueRows(after) && RowsKept(rows, after)
      && (written.Some? ==> Bound(after, devicePub, written.value.accountId))
  {
    var (written, after) := EnrollFirst(rows, devicePub, now, existing, maxScope, uuid);
    if existing.Some? {
      BoundKept(rows, after, devicePub, existing.value.accountId);
    } else if written.Some? {
      assert after[|rows|].devicePub == devicePub;
    }
  }

  /** Whatever was bound stays bound. */
  lemma BindingsKept(s: State, rows: Rows)
    requires HandlersBound(s.rows, s.handlers) && HistoryBound(s.rows, s) && RowsKept(s.rows, rows)
    ensures HandlersBound(rows, s.handlers) && HistoryBound(rows, s)
  {
    forall devicePub, id | Bound(s.rows, devicePub, id)
      ensures Bound(rows, devicePub, id)
    {
      BoundKept(s.rows, rows, devicePub, id);
    }
  }

  lemma EnrollWriteBinding(s: State, h: nat, maxScope: int, uuid: Bytes)
    requires Binding(s)
    ensures Binding(AfterEnrollWrite(s, h, maxScope, uuid))
    ensures RowsKept(s.rows, AfterEnrollWrite(s, h, maxScope, uuid).rows)
  {
    if h in s.handlers && s.handlers[h].Attesting? {
      var at := s.handlers[h];
      EnrollFirstKeepsRows(s.rows, at.devicePub, at.now, at.existing, maxScope, uuid);
      BindingsKept(s, EnrollFirst(s.rows, at.devicePub, at.now, at.existing, maxScope, uuid).1);
    }
  }

  lemma EnrollReadBinding(env: Env, s: State, h: nat, devicePub: Bytes, now: int)
    requires Binding(s)
    ensures Binding(AfterEnrollRead(env, s, h, devicePub, now))
  {
    var existing := FindByDevice(s.rows, devicePub);
    if existing.Some? { RowBound(s.rows, existing.value); }
  }

  lemma EnrollEndBinding(s: State, h: nat)
    requires Binding(s)
    ensures Binding(AfterEnrollRefetch(s, h)) && Binding(AfterEnrollFail(s, h))
  {
    if h in s.handlers && s.handlers[h].Outrun? {
      var winner := FindByDevice(s.rows, s.handlers[h].devicePub);
      if winner.Some? { RowBound(s.rows, winner.value); }
    }
  }

  lemma IssueReadBinding(env: Env, s: State, h: nat, req: IssueRequest, now: int)
    requires Binding(s)
    ensures Binding(AfterIssueRead(env, s, h, req, now))
  {
    var account := FindById(s.rows, req.fields.accountId);
    if account.Some? { RowBound(s.rows, account.value); }
  }

  lemma IssueBinding(l: Limits, s: State, h: nat, signable: bool)
    requires l.Valid() && Binding(s)
    ensures Binding(AfterIssueMark(s, h)) && Binding(AfterIssueAdmit(l, s, h, signable))
  {
  }

  lemma EnrollKept(env: Env, l: Limits, s: State, step: Step)
    requires l.Valid() && Binding(s)
    requires step.EnrollRead? || step.EnrollWrite? || step.EnrollRefetch? || step.EnrollFail?
    ensures Binding(Next(env, l, s, step)) && RowsKept(s.rows, Next(env, l, s, step).rows)
  {
    match step
    case EnrollRead(h, devicePub, now) => EnrollReadBinding(env, s, h, devicePub, now);
    case EnrollWrite(h, maxScope, uuid) => EnrollWriteBinding(s, h, maxScope, uuid);
    case EnrollRefetch(h) => EnrollEndBinding(s, h);
    case EnrollFail(h) => EnrollEndBinding(s, h);
  }

  lemma IssueKept(env: Env, l: Limits, s: State, step: Step)
    requires l.Valid() && Binding(s) && (step.IssueRead? || step.IssueMark? || step.IssueAdmit?)
    ensures Binding(Next(env, l, s, step)) && RowsKept(s.rows, Next(env, l, s, step).rows)
  {
    match step
    case IssueRead(h, req, now) => IssueReadBinding(env, s, h, req, now);
    case IssueMark(h) => IssueBinding(l, s, h, false);
    case IssueAdmit(h, signable) => IssueBinding(l, s, h, signable);
  }

  lemma BindingKept(env: Env, l: Limits, s: State, step: Step)
    requires l.Valid() && Binding(s)
    ensures Binding(Next(env, l, s, step)) && RowsKept(s.rows, Next(env, l, s, step).rows)
  {
    if step.IssueRead? || step.IssueMark? || step.IssueAdmit? {
      IssueKept(env, l, s, step);
    } else {
      EnrollKept(env, l, s, step);
    }
  }

  lemma {:induction false} RunBinding(env: Env, l: Limits, steps: seq<Step>)
    requires l.Valid()
    ensures Binding(Run(env, l, steps))
  {
    if steps != [] {
      RunBinding(env, l, steps[..|steps| - 1]);
      BindingKept(env, l, Run(env, l, steps[..|steps| - 1]), steps[|steps| - 1]);
    }
  }

  lemma BoundUnique(rows: Rows, devicePub: Bytes, a: Bytes, b: Bytes)
    requires UniqueRows(rows) && Bound(rows, devicePub, a) && Bound(rows, devicePub, b)
    ensures a == b
  {
    var i :| 0 <= i < |rows| && rows[i].devicePub == devicePub && rows[i].accountId == a;
    var j :| 0 <= j < |rows| && rows[j].devicePub == devicePub && rows[j].accountId == b;
    assert i == j;
  }

  /** On every interleaving, a device key has one account id: all enrolments of it, concurrent or not,
      are answered with the same id, and so is every grant under it. */
  lemma OneAccountPerDevice(env: Env, l: Limits, steps: seq<Step>, i: nat, j: nat)
    requires l.Valid()
    ensures var s := Run(env, l, steps);
      && (i < |s.answers| && j < |s.answers| && s.answers[i].0 == s.answers[j].0 ==> s.answers[i].1 == s.answers[j].1)
      && (i < |s.answers| && j < |s.grants| && s.answers[i].0 == s.grants[j].account.devicePub ==>
            s.answers[i].1 == s.grants[j].account.accountId)
  {
    var s := Run(env, l, steps);
    RunBinding(env, l, steps);
    if i < |s.answers| {
      if j < |s.answers| && s.answers[i].0 == s.answers[j].0 {
        BoundUnique(s.rows, s.answers[i].0, s.answers[i].1, s.answers[j].1);
      }
      if j < |s.grants| && s.answers[i].0 == s.grants[j].account.devicePub {
        BoundUnique(s.rows, s.answers[i].0, s.answers[i].1, s.grants[j].account.accountId);
      }
    }
  }

  /** Once bound, a device key keeps its account id for the rest of the run. */
  lemma {:induction false} BindingPermanent(env: Env, l: Limits, steps: seq<Step>, n: nat, devicePub: Bytes, id: Bytes)
    requires l.Valid() && n <= |steps| && Bound(Run(env, l, steps[..n]).rows, devicePub, id)
    ensures Bound(Run(env, l, steps).rows, devicePub, id)
    decreases |steps|
  {
    if n < |steps| {
      var before := steps[..|steps| - 1];
      assert before[..n] == steps[..n];
      BindingPermanent(env, l, before, n, devicePub, id);
      RunBinding(env, l, before);
      BindingKept(env, l, Run(env, l, before), steps[|steps| - 1]);
      BoundKept(Run(env, l, before).rows, Run(env, l, steps).rows, devicePub, id);
    } else {
      assert steps[..n] == steps;
    }
  }

  // ---------------------------------------------------------------- what a grant has passed

  /** What authentication has checked of an account version and a request. */
  ghost predicate Checked(env: Env, account: Account, req: IssueRequest, now: int) {
    && req.fields.scope in SCOPES
    && account.accountId == req.fields.accountId && account.expiresAt > now
    && FitsLayout(req.fields)
    && (env.verifies)(account.devicePub, req.signature, Payload(env.sha, req.fields))
    && -ISSUANCE_TS_WINDOW <= req.fields.ts - now <= ISSUANCE_TS_WINDOW
  }

  lemma ReadChecks(env: Env, rows: Rows, req: IssueRequest, now: int)
    ensures var auth := Authenticated(env, rows, req, now);
      auth.Ok? ==> Checked(env, auth.value, req, now) && FindById(rows, req.fields.accountId) == Some(auth.value)
  {
  }

  ghost predicate UnderWay(s: State, h: nat) {
    h in s.handlers && s.handlers[h].Issuing()
  }

  /** The handler is under way after every step from `n` on. */
  ghost predicate UnderWaySince(env: Env, l: Limits, steps: seq<Step>, n: nat, h: nat)
    requires l.Valid()
    decreases |steps|
  {
    n < |steps| ==> UnderWay(Run(env, l, steps), h) && UnderWaySince(env, l, steps[..|steps| - 1], n, h)
  }

  /** Step `n` starts handler `h` by reading this account version from the table of that moment, and
      the handler is under way ever since. */
  ghost predicate ReadAt(env: Env, l: Limits, steps: seq<Step>, n: nat, h: nat, account: Account, req: IssueRequest,
                         now: int)
    requires l.Valid()
  {
    && n < |steps| && steps[n] == IssueRead(h, req, now)
    && Authenticated(env, Run(env, l, steps[..n]).rows, req, now) == Ok(account)
    && UnderWaySince(env, l, steps, n, h)
  }

  lemma ReadStays(env: Env, l: Limits, steps: seq<Step>, n: nat, h: nat, account: Account, req: IssueRequest, now: int)
    requires l.Valid() && steps != [] && ReadAt(env, l, steps[..|steps| - 1], n, h, account, req, now)
    requires UnderWay(Run(env, l, steps), h)
    ensures ReadAt(env, l, steps, n, h, account, req, now)
  {
    assert steps[..|steps| - 1][..n] == steps[..n];
  }

  /** Every issuance under way was read at some step. */
  lemma {:induction false} HandlerRead(env: Env, l: Limits, steps: seq<Step>, h: nat) returns (n: nat)
    requires l.Valid() && h in Run(env, l, steps).handlers && Run(env, l, steps).handlers[h].Issuing()
    ensures var at := Run(env, l, steps).handlers[h];
      ReadAt(env, l, steps, n, h, at.account, at.req, at.now)
  {
    var before, last := steps[..|steps| - 1], steps[|steps| - 1];
    var s, at := Run(env, l, before), Run(env, l, steps).handlers[h];
    if h in s.handlers && s.handlers[h].Issuing() {
      n := HandlerRead(env, l, before, h);
      SameIssuance(env, l, s, last, h);
      ReadStays(env, l, steps, n, h, at.account, at.req, at.now);
    } else {
      n := |steps| - 1;
      NewIssuance(env, l, s, last, h);
    }
  }

  lemma SameIssuance(env: Env, l: Limits, s: State, step: Step, h: nat)
    requires l.Valid() && h in s.handlers && s.handlers[h].Issuing() && h in Next(env, l, s, step).handlers
    ensures var at, at' := s.handlers[h], Next(env, l, s, step).handlers[h];
      at'.Issuing() && at'.account == at.account && at'.req == at.req && at'.now == at.now
  {
  }

  lemma NewIssuance(env: Env, l: Limits, s: State, step: Step, h: nat)
    requires l.Valid() && h in Next(env, l, s, step).handlers && Next(env, l, s, step).handlers[h].Issuing()
    requires h !in s.handlers || !s.handlers[h].Issuing()
    ensures var at := Next(env, l, s, step).handlers[h];
      step == IssueRead(h, at.req, at.now) && Authenticated(env, s.rows, at.req, at.now) == Ok(at.account)
  {
    if step.handler != h {
      OthersStay(env, l, s, step, h);
    } else {
      OwnStep(env, l, s, step);
    }
  }

  /** A step changes no other handler. */
  lemma OthersStay(env: Env, l: Limits, s: State, step: Step, h: nat)
    requires l.Valid() && step.handler != h
    ensures var next := Next(env, l, s, step);
      && (h in next.handlers <==> h in s.handlers) && (h in s.handlers ==> next.handlers[h] == s.handlers[h])
  {
  }

  /** Only its read makes a handler one of an issuance. */
  lemma OwnStep(env: Env, l: Limits, s: State, step: Step)
    requires l.Valid() && (step.handler !in s.handlers || !s.handlers[step.handler].Issuing())
    requires step.handler in Next(env, l, s, step).handlers && Next(env, l, s, step).handlers[step.handler].Issuing()
    ensures var at := Next(env, l, s, step).handlers[step.handler];
      step == IssueRead(step.handler, at.req, at.now) && Authenticated(env, s.rows, at.req, at.now) == Ok(at.account)
  {
  }

  /** Grant `i` was read at step `n` and admitted at step `m` of one handler. */
  ghost predicate GrantedAt(env: Env, l: Limits, steps: seq<Step>, i: nat, n: nat, m: nat)
    requires l.Valid() && i < |Run(env, l, steps).grants|
  {
    var g := Run(env, l, steps).grants[i];
    && n < m < |steps| && steps[m].IssueAdmit?
    && ReadAt(env, l, steps[..m], n, steps[m].handler, g.account, g.req, g.now)
    && |Run(env, l, steps[..m]).grants| == i
  }

  lemma GrantStays(env: Env, l: Limits, steps: seq<Step>, i: nat, n: nat, m: nat)
    requires l.Valid() && steps != [] && i < |Run(env, l, steps[..|steps| - 1]).grants|
    requires GrantedAt(env, l, steps[..|steps| - 1], i, n, m)
    ensures i < |Run(env, l, steps).grants| && GrantedAt(env, l, steps, i, n, m)
  {
    var before := steps[..|steps| - 1];
    GrantsGrow(env, l, Run(env, l, before), steps[|steps| - 1]);
    assert before[..m] == steps[..m];
  }

  lemma {:induction false} GrantRead(env: Env, l: Limits, steps: seq<Step>, i: nat) returns (n: nat, m: nat)
    requires l.Valid() && i < |Run(env, l, steps).grants|
    ensures GrantedAt(env, l, steps, i, n, m)
  {
    var before, last := steps[..|steps| - 1], steps[|steps| - 1];
    var s := Run(env, l, before);
    if i < |s.grants| {
      n, m := GrantRead(env, l, before, i);
      GrantStays(env, l, steps, i, n, m);
    } else {
      GrantsGrow(env, l, s, last);
      m := |steps| - 1;
      n := HandlerRead(env, l, before, last.handler);
    }
  }

  /** A step adds at most one grant, and then admits a recorded handler within its scope. */
  lemma GrantsGrow(env: Env, l: Limits, s: State, step: Step)
    requires l.Valid()
    ensures var next := Next(env, l, s, step);
      next.grants == s.grants
      || (step.IssueAdmit? && step.handler in s.handlers && s.handlers[step.handler].Recorded?
          && var at := s.handlers[step.handler];
             next.grants == s.grants + [Grant(at.account, at.req, at.now, at.mark, step.signable)]
             && at.req.fields.scope <= at.account.maxScope)
  {
  }

  lemma {:induction false} GrantsInScope(env: Env, l: Limits, steps: seq<Step>, i: nat)
    requires l.Valid() && i < |Run(env, l, steps).grants|
    ensures var g := Run(env, l, steps).grants[i]; g.req.fields.scope <= g.account.maxScope
  {
    var before := Run(env, l, steps[..|steps| - 1]);
    GrantsGrow(env, l, before, steps[|steps| - 1]);
    if i < |before.grants| { GrantsInScope(env, l, steps[..|steps| - 1], i); }
  }

  /** Every grant goes back to a read by its handler that found, in the table of that very moment, an
      account that had not expired, had signed the request, and whose max_scope covers the scope. */
  lemma GrantsAuthorised(env: Env, l: Limits, steps: seq<Step>, i: nat) returns (n: nat, m: nat)
    requires l.Valid() && i < |Run(env, l, steps).grants|
    ensures GrantedAt(env, l, steps, i, n, m)
    ensures var g := Run(env, l, steps).grants[i];
      && steps[n] == IssueRead(steps[m].handler, g.req, g.now)
      && Authenticated(env, Run(env, l, steps[..n]).rows, g.req, g.now) == Ok(g.account)
      && FindById(Run(env, l, steps[..n]).rows, g.req.fields.accountId) == Some(g.account)
      && Checked(env, g.account, g.req, g.now)
      && g.req.fields.scope <= g.account.maxScope
  {
    n, m := GrantRead(env, l, steps, i);
    GrantsInScope(env, l, steps, i);
    assert steps[..m][..n] == steps[..n];
    var g := Run(env, l, steps).grants[i];
    ReadChecks(env, Run(env, l, steps[..n]).rows, g.req, g.now);
  }

  // ---------------------------------------------------------------- the account at the moment of admission

  /** The account version that a step writes over an existing row. */
  function Renewal(s: State, step: Step): Option<Account> {
    if step.EnrollWrite? && step.handler in s.handlers && s.handlers[step.handler].Attesting?
       && s.handlers[step.handler].existing.Some?
    then
      var at := s.handlers[step.handler];
      Some(NewAccount(at.existing.value.accountId, at.devicePub, step.maxScope, at.now))
    else None
  }

  /** The last renewal of an account from step `n` to the end of the run. */
  function LastRenewal(env: Env, l: Limits, steps: seq<Step>, n: nat, id: Bytes): Option<Account>
    requires l.Valid() && n <= |steps|
    decreases |steps|
  {
    if n == |steps| then None
    else
      var before := steps[..|steps| - 1];
      var r := Renewal(Run(env, l, before), steps[|steps| - 1]);
      if r.Some? && r.value.accountId == id then r else LastRenewal(env, l, before, n, id)
  }

  lemma FoundExactly(rows: Rows, a: Account)
    requires UniqueRows(rows)
    ensures FindById(rows, a.accountId) == Some(a) <==> a in rows
  {
    var found := FindById(rows, a.accountId);
    if a in rows {
      var i :| 0 <= i < |rows| && rows[i] == a;
      var j :| 0 <= j < |rows| && rows[j] == found.value;
      assert i == j;
    }
  }

  /** A step leaves the row of an account as it is, unless it renews it. */
  lemma StepKeepsVersion(env: Env, l: Limits, s: State, step: Step, a: Account)
    requires l.Valid() && Binding(s) && a in s.rows
    ensures var r := Renewal(s, step);
      (if r.Some? && r.value.accountId == a.accountId then r.value else a) in Next(env, l, s, step).rows
  {
    var i :| 0 <= i < |s.rows| && s.rows[i] == a;
    var next := Next(env, l, s, step);
    if step.EnrollWrite? && step.handler in s.handlers && s.handlers[step.handler].Attesting? {
      var at := s.handlers[step.handler];
      if at.existing.Some? && at.existing.value.accountId == a.accountId {
        var k :| 0 <= k < |s.rows| && s.rows[k].devicePub == at.devicePub && s.rows[k].accountId == a.accountId;
        assert k == i;
      }
      assert next.rows == s.rows || i < |next.rows|;
    } else {
      assert next.rows == s.rows;
    }
  }

  lemma StepVersion(env: Env, l: Limits, s: State, step: Step, a: Account)
    requires l.Valid() && Binding(s) && FindById(s.rows, a.accountId) == Some(a)
    ensures var r := Renewal(s, step);
      FindById(Next(env, l, s, step).rows, a.accountId)
      == Some(if r.Some? && r.value.accountId == a.accountId then r.value else a)
  {
    var r := Renewal(s, step);
    FoundExactly(s.rows, a);
    StepKeepsVersion(env, l, s, step, a);
    BindingKept(env, l, s, step);
    FoundExactly(Next(env, l, s, step).rows, if r.Some? && r.value.accountId == a.accountId then r.value else a);
  }

  /** What the row of an account is at the end of a run, when it was `a` at step `n`. */
  lemma {:induction false} VersionExact(env: Env, l: Limits, steps: seq<Step>, n: nat, a: Account)
    requires l.Valid() && n <= |steps| && FindById(Run(env, l, steps[..n]).rows, a.accountId) == Some(a)
    ensures var r := LastRenewal(env, l, steps, n, a.accountId);
      && (r.Some? ==> r.value.accountId == a.accountId)
      && FindById(Run(env, l, steps).rows, a.accountId) == Some(if r.Some? then r.value else a)
    decreases |steps|
  {
    if n < |steps| {
      var before := steps[..|steps| - 1];
      assert before[..n] == steps[..n];
      VersionExact(env, l, before, n, a);
      var r := LastRenewal(env, l, before, n, a.accountId);
      RunBinding(env, l, before);
      StepVersion(env, l, Run(env, l, before), steps[|steps| - 1], if r.Some? then r.value else a);
    } else {
      assert steps[..n] == steps;
    }
  }

  /** Exactly when a grant is within its account's max_scope at the moment of admission, and exactly
      when the version read is still the row then: when the account has not been renewed since the
      read, or the last renewal since gives as much, or the same version. */
  lemma ScopeAtAdmission(env: Env, l: Limits, steps: seq<Step>, i: nat) returns (n: nat, m: nat)
    requires l.Valid() && i < |Run(env, l, steps).grants|
    ensures GrantedAt(env, l, steps, i, n, m)
    ensures var g := Run(env, l, steps).grants[i];
      var row := FindById(Run(env, l, steps[..m]).rows, g.account.accountId);
      var renewed := LastRenewal(env, l, steps[..m], n, g.account.accountId);
      && row.Some?
      && (g.req.fields.scope <= row.value.maxScope <==> renewed.None? || g.req.fields.scope <= renewed.value.maxScope)
      && (row.value == g.account <==> renewed.None? || renewed.value == g.account)
  {
    n, m := GrantsAuthorised(env, l, steps, i);
    assert steps[..m][..n] == steps[..n];
    VersionExact(env, l, steps[..m], n, Run(env, l, steps).grants[i].account);
  }

  // ---------------------------------------------------------------- one budget per device

  /** The clock values of the limiter calls for one account. */
  function TimesFor(calls: seq<Call>, id: Bytes): seq<real> {
    if calls == [] then []
    else
      var last := calls[|calls| - 1];
      TimesFor(calls[..|calls| - 1], id) + if last.key == id then [last.now] else []
  }

  /** How many grants an account has at clock values in `[s, t]`. */
  function GrantCount(grants: seq<Grant>, id: Bytes, s: real, t: real): nat {
    if grants == [] then 0
    else
      var g := grants[|grants| - 1];
      GrantCount(grants[..|grants| - 1], id, s, t)
      + if g.account.accountId == id && s <= g.now as real <= t then 1 else 0
  }

  ghost predicate BucketsExplained(l: Limits, buckets: Buckets, calls: seq<Call>)
    requires l.Valid()
  {
    forall id :: Get(buckets, id) == AfterRun(l, None, TimesFor(calls, id))
  }

  ghost predicate GrantsExplained(l: Limits, calls: seq<Call>, grants: seq<Grant>)
    requires l.Valid()
  {
    forall id, from, to :: GrantCount(grants, id, from, to)
      == GrantsWithin(l, None, TimesFor(calls, id), |TimesFor(calls, id)|, from, to)
  }

  /** The limiter's history explains its buckets and the grants, for every account and interval. */
  ghost predicate Metered(l: Limits, s: State)
    requires l.Valid()
  {
    BucketsExplained(l, s.buckets, s.calls) && GrantsExplained(l, s.calls, s.grants)
  }

  lemma OneMoreCall(l: Limits, times: seq<real>, now: real, from: real, to: real)
    requires l.Valid()
    ensures AfterRun(l, None, times + [now]) == Some(After(l, AfterRun(l, None, times), now))
    ensures GrantsWithin(l, None, times + [now], |times| + 1, from, to)
         == GrantsWithin(l, None, times, |times|, from, to)
            + if Allowed(l, AfterRun(l, None, times), now) && from <= now <= to then 1 else 0
  {
    var longer := times + [now];
    assert longer[..|times|] == times;
    GrantsPrefix(l, times, now, |times|, from, to);
  }

  lemma {:induction false} GrantsPrefix(l: Limits, times: seq<real>, now: real, n: nat, from: real, to: real)
    requires l.Valid() && n <= |times|
    ensures GrantsWithin(l, None, times + [now], n, from, to) == GrantsWithin(l, None, times, n, from, to)
  {
    if n > 0 {
      GrantsPrefix(l, times, now, n - 1, from, to);
      assert (times + [now])[..n - 1] == times[..n - 1];
    }
  }

  lemma OneMoreGrant(grants: seq<Grant>, g: Grant, id: Bytes, from: real, to: real)
    ensures GrantCount(grants + [g], id, from, to)
         == GrantCount(grants, id, from, to) + if g.account.accountId == id && from <= g.now as real <= to then 1 else 0
  {
    assert (grants + [g])[..|grants|] == grants;
  }

  lemma OneMoreTime(calls: seq<Call>, call: Call, id: Bytes)
    ensures TimesFor(calls + [call], id)
         == if call.key == id then TimesFor(calls, id) + [call.now] else TimesFor(calls, id)
  {
    assert (calls + [call])[..|calls|] == calls;
    assert TimesFor(calls, id) + [] == TimesFor(calls, id);
  }

  lemma ChargeExplained(l: Limits, buckets: Buckets, calls: seq<Call>, call: Call)
    requires l.Valid() && BucketsExplained(l, buckets, calls)
    ensures BucketsExplained(l, Charge(l, buckets, call), calls + [call])
  {
    forall id
      ensures Get(Charge(l, buckets, call), id) == AfterRun(l, None, TimesFor(calls + [call], id))
    {
      OneMoreTime(calls, call, id);
      OneMoreCall(l, TimesFor(calls, id), call.now, 0.0, 0.0);
    }
  }

  /** One account and interval: a further call, granted or not, is counted on both sides. */
  lemma GrantCounted(l: Limits, calls: seq<Call>, grants: seq<Grant>, g: Grant, hit: bool, id: Bytes, from: real,
                     to: real)
    requires l.Valid()
    requires GrantCount(grants, id, from, to)
          == GrantsWithin(l, None, TimesFor(calls, id), |TimesFor(calls, id)|, from, to)
    requires hit <==> Allowed(l, AfterRun(l, None, TimesFor(calls, g.account.accountId)), g.now as real)
    ensures var times := TimesFor(calls + [Call(g.account.accountId, g.now as real)], id);
      GrantCount(if hit then grants + [g] else grants, id, from, to) == GrantsWithin(l, None, times, |times|, from, to)
  {
    var call := Call(g.account.accountId, g.now as real);
    OneMoreTime(calls, call, id);
    OneMoreGrant(grants, g, id, from, to);
    if call.key == id {
      OneMoreCall(l, TimesFor(calls, id), call.now, from, to);
    }
  }

  lemma GrantExplained(l: Limits, calls: seq<Call>, grants: seq<Grant>, g: Grant, hit: bool)
    requires l.Valid() && GrantsExplained(l, calls, grants)
    requires hit <==> Allowed(l, AfterRun(l, None, TimesFor(calls, g.account.accountId)), g.now as real)
    ensures GrantsExplained(l, calls + [Call(g.account.accountId, g.now as real)], if hit then grants + [g] else grants)
  {
    var longer := calls + [Call(g.account.accountId, g.now as real)];
    forall id, from, to
      ensures GrantCount(if hit then grants + [g] else grants, id, from, to)
           == GrantsWithin(l, None, TimesFor(longer, id), |TimesFor(longer, id)|, from, to)
    {
      GrantCounted(l, calls, grants, g, hit, id, from, to);
    }
  }

  /** What an admission does to the limiter's buckets and to the history, as one charged call. */
  lemma AdmitEffect(l: Limits, s: State, h: nat, signable: bool)
    requires l.Valid() && h in s.handlers && s.handlers[h].Recorded?
    requires s.handlers[h].req.fields.scope <= s.handlers[h].account.maxScope
    ensures var at, next := s.handlers[h], AfterIssueAdmit(l, s, h, signable);
      var call, g := Call(at.account.accountId, at.now as real), Grant(at.account, at.req, at.now, at.mark, signable);
      && next.buckets == Charge(l, s.buckets, call)
      && next.calls == s.calls + [call]
      && next.grants == if Allowed(l, Get(s.buckets, call.key), call.now) then s.grants + [g] else s.grants
  {
    var at := s.handlers[h];
    AskExact(l, Get(s.buckets, at.account.accountId), at.now as real);
  }

  lemma AdmitMetered(l: Limits, s: State, h: nat, signable: bool)
    requires l.Valid() && Metered(l, s)
    ensures Metered(l, AfterIssueAdmit(l, s, h, signable))
  {
    if h in s.handlers && s.handlers[h].Recorded? && s.handlers[h].req.fields.scope <= s.handlers[h].account.maxScope {
      var at := s.handlers[h];
      var call, g := Call(at.account.accountId, at.now as real), Grant(at.account, at.req, at.now, at.mark, signable);
      AdmitEffect(l, s, h, signable);
      ChargeExplained(l, s.buckets, s.calls, call);
      assert Get(s.buckets, call.key) == AfterRun(l, None, TimesFor(s.calls, call.key));
      GrantExplained(l, s.calls, s.grants, g, Allowed(l, Get(s.buckets, call.key), call.now));
    }
  }

  lemma MeteredKept(env: Env, l: Limits, s: State, step: Step)
    requires l.Valid() && Metered(l, s)
    ensures Metered(l, Next(env, l, s, step))
  {
    if step.IssueAdmit? {
      AdmitMetered(l, s, step.handler, step.signable);
    } else {
      var next := Next(env, l, s, step);
      assert next.buckets == s.buckets && next.calls == s.calls && next.grants == s.grants;
    }
  }

  lemma {:induction false} RunMetered(env: Env, l: Limits, steps: seq<Step>)
    requires l.Valid()
    ensures Metered(l, Run(env, l, steps))
  {
    if steps != [] {
      RunMetered(env, l, steps[..|steps| - 1]);
      MeteredKept(env, l, Run(env, l, steps[..|steps| - 1]), steps[|steps| - 1]);
    }
  }

  /** How many blind signatures a device key obtained at clock values in `[s, t]`. */
  function SignedFor(grants: seq<Grant>, devicePub: Bytes, s: real, t: real): nat {
    if grants == [] then 0
    else
      var g := grants[|grants| - 1];
      SignedFor(grants[..|grants| - 1], devicePub, s, t)
      + if g.signed && g.account.devicePub == devicePub && s <= g.now as real <= t then 1 else 0
  }

  lemma {:induction false} SignedAreGrants(grants: seq<Grant>, devicePub: Bytes, id: Bytes, s: real, t: real)
    requires forall i :: 0 <= i < |grants| && grants[i].account.devicePub == devicePub ==>
        grants[i].account.accountId == id
    ensures SignedFor(grants, devicePub, s, t) <= GrantCount(grants, id, s, t)
  {
    if grants != [] { SignedAreGrants(grants[..|grants| - 1], devicePub, id, s, t); }
  }

  lemma {:induction false} NoSignatures(grants: seq<Grant>, devicePub: Bytes, s: real, t: real)
    requires forall i :: 0 <= i < |grants| ==> grants[i].account.devicePub != devicePub
    ensures SignedFor(grants, devicePub, s, t) == 0
  {
    if grants != [] { NoSignatures(grants[..|grants| - 1], devicePub, s, t); }
  }

  /** One budget per device: on every interleaving of enrolments, renewals and issuances, and in
      whatever order the handlers' clock values reach the limiter, the blind signatures obtained under
      one device key at times in `[s, t]` obey the rate bound of a single account. */
  lemma OneBudgetPerDevice(env: Env, l: Limits, steps: seq<Step>, devicePub: Bytes, s: real, t: real)
    requires l.Valid() && l.capacity >= 0 && s <= t
    ensures SignedFor(Run(env, l, steps).grants, devicePub, s, t) as real
         <= l.capacity as real + (t - s) / l.refillSeconds
  {
    var grants := Run(env, l, steps).grants;
    if i :| 0 <= i < |grants| && grants[i].account.devicePub == devicePub {
      var id := grants[i].account.accountId;
      var rows := Run(env, l, steps).rows;
      RunBinding(env, l, steps);
      forall j | 0 <= j < |grants| && grants[j].account.devicePub == devicePub
        ensures grants[j].account.accountId == id
      {
        BoundUnique(rows, devicePub, grants[j].account.accountId, id);
      }
      SignedAreGrants(grants, devicePub, id, s, t);
      RunMetered(env, l, steps);
      var times := TimesFor(Run(env, l, steps).calls, id);
      RateBound(l, None, times, |times|, s, t);
    } else {
      NoSignatures(grants, devicePub, s, t);
      NoGrantsBound(l, s, t);
    }
  }
}
