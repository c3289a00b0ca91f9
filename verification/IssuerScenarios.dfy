/** Two runs of the issuer's handlers, each of which breaks a promise that holds when handlers do not
    overlap: an account renewed to a smaller scope under a running issuance, and a daily cap that two
    handlers overtaking each other around midnight exceed. */
module IssuerScenarios {
  import opened Wrappers
  import opened Bytes
  import opened IssuerTables
  import opened RateLimit
  import opened Issuer
  import opened IssuerRuns
  import opened IssuerDays

  lemma RunStep(env: Env, l: Limits, steps: seq<Step>, n: nat)
    requires l.Valid() && n < |steps|
    ensures Run(env, l, steps[..n + 1]) == Next(env, l, Run(env, l, steps[..n]), steps[n])
  {
    assert steps[..n + 1][..n] == steps[..n];
  }

  /** The state after one enrolment in an empty table. */
  function Enrolled1(a: Account): State {
    INITIAL.(rows := [a], answers := [(a.devicePub, a.accountId)])
  }

  lemma FirstEnrolment(env: Env, l: Limits, steps: seq<Step>, devicePub: Bytes, now: int, maxScope: int, uuid: Bytes)
    requires l.Valid() && |steps| >= 2 && (env.keyDecodes)(devicePub)
    requires steps[0] == EnrollRead(0, devicePub, now) && steps[1] == EnrollWrite(0, maxScope, uuid)
    ensures Run(env, l, steps[..2]) == Enrolled1(NewAccount(uuid, devicePub, maxScope, now))
  {
    assert steps[..0] == [];
    RunStep(env, l, steps, 0);
    RunStep(env, l, steps, 1);
    var first := INITIAL.(handlers := map[0 := Attesting(devicePub, now, None)]);
    assert Run(env, l, steps[..1]) == first;
    assert Without(first.handlers, 0) == map[];
  }

  /** A read step of a handler that is free. */
  lemma ReadStep(env: Env, l: Limits, steps: seq<Step>, n: nat, s: State, h: nat, a: Account, req: IssueRequest,
                 now: int)
    requires l.Valid() && n < |steps| && steps[n] == IssueRead(h, req, now) && Run(env, l, steps[..n]) == s
    requires h !in s.handlers && Authenticated(env, s.rows, req, now) == Ok(a)
    ensures Run(env, l, steps[..n + 1]) == s.(handlers := s.handlers[h := Authentic(a, req, now)])
  {
    RunStep(env, l, steps, n);
  }

  /** What one admitted issuance does to a state, apart from its handler. */
  function Admit(l: Limits, s: State, account: Account, req: IssueRequest, now: int): State
    requires l.Valid()
  {
    s.(seen := Marked(s.seen, req.fields.requestId, now, DEFAULT_WINDOW),
       marks := s.marks + [Mark(req.fields.requestId, req.fields.ts, now)],
       buckets := Charge(l, s.buckets, Call(account.accountId, now as real)),
       calls := s.calls + [Call(account.accountId, now as real)],
       grants := s.grants + [Grant(account, req, now, |s.marks|, true)])
  }

  predicate Admissible(l: Limits, s: State, account: Account, req: IssueRequest, now: int)
    requires l.Valid()
  {
    && IsNew(s.seen, req.fields.requestId, now, DEFAULT_WINDOW) && req.fields.scope <= account.maxScope
    && Allowed(l, Get(s.buckets, account.accountId), now as real)
  }

  lemma MarksAndAdmits(l: Limits, s: State, h: nat, account: Account, req: IssueRequest, now: int)
    requires l.Valid() && h in s.handlers && s.handlers[h] == Authentic(account, req, now)
    requires Admissible(l, s, account, req, now)
    ensures AfterIssueAdmit(l, AfterIssueMark(s, h), h, true)
        == Admit(l, s, account, req, now).(handlers := Without(s.handlers, h))
  {
    var marked := AfterIssueMark(s, h);
    assert marked.handlers[h] == Recorded(account, req, now, |s.marks|);
    assert Without(marked.handlers, h) == Without(s.handlers, h);
    AskExact(l, Get(s.buckets, account.accountId), now as real);
  }

  /** Mark and admission of an authentic handler, one after the other. */
  lemma AdmitSteps(env: Env, l: Limits, steps: seq<Step>, n: nat, s: State, h: nat, a: Account, req: IssueRequest,
                   now: int)
    requires l.Valid() && n + 1 < |steps| && steps[n] == IssueMark(h) && steps[n + 1] == IssueAdmit(h, true)
    requires Run(env, l, steps[..n]) == s && h in s.handlers && s.handlers[h] == Authentic(a, req, now)
    requires Admissible(l, s, a, req, now)
    ensures Run(env, l, steps[..n + 2]) == Admit(l, s, a, req, now).(handlers := Without(s.handlers, h))
  {
    RunStep(env, l, steps, n);
    RunStep(env, l, steps, n + 1);
    MarksAndAdmits(l, s, h, a, req, now);
  }

  /** An issuance that is not interrupted. */
  lemma IssueSteps(env: Env, l: Limits, steps: seq<Step>, n: nat, s: State, h: nat, a: Account, req: IssueRequest,
                   now: int)
    requires l.Valid() && n + 2 < |steps|
    requires steps[n] == IssueRead(h, req, now) && steps[n + 1] == IssueMark(h) && steps[n + 2] == IssueAdmit(h, true)
    requires Run(env, l, steps[..n]) == s && h !in s.handlers && Authenticated(env, s.rows, req, now) == Ok(a)
    requires Admissible(l, s, a, req, now)
    ensures Run(env, l, steps[..n + 3]) == Admit(l, s, a, req, now)
  {
    var read := s.(handlers := s.handlers[h := Authentic(a, req, now)]);
    ReadStep(env, l, steps, n, s, h, a, req, now);
    AdmitSteps(env, l, steps, n + 1, read, h, a, req, now);
    assert Without(read.handlers, h) == s.handlers;
  }

  // ---------------------------------------------------------------- a scope that is taken back

  /** Enrol for all scopes; read the account in its last second; let another handler renew it for scope
      13 one second later; then go on. */
  function RenewedRun(devicePub: Bytes, uuid: Bytes, req: IssueRequest): seq<Step> {
    var expiry := DEFAULT_ACCOUNT_VALIDITY;
    [EnrollRead(0, devicePub, 0), EnrollWrite(0, 21, uuid), IssueRead(1, req, expiry - 1),
     EnrollRead(2, devicePub, expiry), EnrollWrite(2, 13, uuid), IssueMark(1), IssueAdmit(1, true)]
  }

  /** The state between the read and the renewal, and the state after it. */
  function ReadState(a: Account, req: IssueRequest, now: int): State {
    Enrolled1(a).(handlers := map[1 := Authentic(a, req, now)])
  }

  function RenewedState(a: Account, b: Account, req: IssueRequest, now: int): State {
    ReadState(a, req, now).(rows := [b], answers := [(a.devicePub, a.accountId), (a.devicePub, a.accountId)])
  }

  lemma RenewsUnderway(env: Env, a: Account, req: IssueRequest, now: int, uuid: Bytes)
    requires (env.keyDecodes)(a.devicePub) && a.expiresAt == now + 1
    ensures var b := NewAccount(a.accountId, a.devicePub, 13, now + 1);
      AfterEnrollWrite(AfterEnrollRead(env, ReadState(a, req, now), 2, a.devicePub, now + 1), 2, 13, uuid)
      == RenewedState(a, b, req, now)
  {
    var read := AfterEnrollRead(env, ReadState(a, req, now), 2, a.devicePub, now + 1);
    assert FindByDevice([a], a.devicePub) == Some(a);
    assert read.handlers == map[1 := Authentic(a, req, now), 2 := Attesting(a.devicePub, now + 1, Some(a))];
    assert Without(read.handlers, 2) == map[1 := Authentic(a, req, now)];
    var b := NewAccount(a.accountId, a.devicePub, 13, now + 1);
    assert Renewed([a], a.accountId, 13, now + 1, b.expiresAt) == [b];
  }

  lemma ReadBeforeRenewal(env: Env, l: Limits, devicePub: Bytes, uuid: Bytes, req: IssueRequest)
    requires l.Valid() && (env.keyDecodes)(devicePub)
    requires Authenticated(env, [NewAccount(uuid, devicePub, 21, 0)], req, DEFAULT_ACCOUNT_VALIDITY - 1)
        == Ok(NewAccount(uuid, devicePub, 21, 0))
    ensures Run(env, l, RenewedRun(devicePub, uuid, req)[..3])
         == ReadState(NewAccount(uuid, devicePub, 21, 0), req, DEFAULT_ACCOUNT_VALIDITY - 1)
  {
    var run, a := RenewedRun(devicePub, uuid, req), NewAccount(uuid, devicePub, 21, 0);
    FirstEnrolment(env, l, run, devicePub, 0, 21, uuid);
    ReadStep(env, l, run, 2, Enrolled1(a), 1, a, req, DEFAULT_ACCOUNT_VALIDITY - 1);
  }

  lemma TwoSteps(env: Env, l: Limits, steps: seq<Step>, n: nat)
    requires l.Valid() && n + 1 < |steps|
    ensures Run(env, l, steps[..n + 2]) == Next(env, l, Next(env, l, Run(env, l, steps[..n]), steps[n]), steps[n + 1])
  {
    RunStep(env, l, steps, n);
    RunStep(env, l, steps, n + 1);
  }

  lemma RenewalOvertaken(env: Env, l: Limits, devicePub: Bytes, uuid: Bytes, req: IssueRequest)
    requires l.Valid() && (env.keyDecodes)(devicePub)
    requires Authenticated(env, [NewAccount(uuid, devicePub, 21, 0)], req, DEFAULT_ACCOUNT_VALIDITY - 1)
        == Ok(NewAccount(uuid, devicePub, 21, 0))
    ensures Run(env, l, RenewedRun(devicePub, uuid, req)[..5])
         == RenewedState(NewAccount(uuid, devicePub, 21, 0), NewAccount(uuid, devicePub, 13, DEFAULT_ACCOUNT_VALIDITY),
                         req, DEFAULT_ACCOUNT_VALIDITY - 1)
  {
    ReadBeforeRenewal(env, l, devicePub, uuid, req);
    TwoSteps(env, l, RenewedRun(devicePub, uuid, req), 3);
    RenewsUnderway(env, NewAccount(uuid, devicePub, 21, 0), req, DEFAULT_ACCOUNT_VALIDITY - 1, uuid);
  }

  /** Recording the request changes neither the accounts nor the grants. */
  lemma MarkRenewed(env: Env, l: Limits, devicePub: Bytes, uuid: Bytes, req: IssueRequest)
    requires l.Valid()
    ensures var run := RenewedRun(devicePub, uuid, req);
      && Run(env, l, run[..6]).rows == Run(env, l, run[..5]).rows
      && Run(env, l, run[..6]).grants == Run(env, l, run[..5]).grants
  {
    RunStep(env, l, RenewedRun(devicePub, uuid, req), 5);
  }

  /** The promise that a signature's scope is within the account's max_scope at the moment of issuance
      fails when a renewal overtakes the issuance: in this run, with clock values in order, a blind
      signature for scope 21 is granted while the account's row allows scope 13 only. */
  lemma RenewalOvertakes(env: Env, l: Limits, devicePub: Bytes, uuid: Bytes, req: IssueRequest)
    requires l.Valid() && Allowed(l, None, (DEFAULT_ACCOUNT_VALIDITY - 1) as real) && (env.keyDecodes)(devicePub)
    requires var a := NewAccount(uuid, devicePub, 21, 0);
      req.fields.scope == 21 && Authenticated(env, [a], req, DEFAULT_ACCOUNT_VALIDITY - 1) == Ok(a)
    ensures var run := RenewedRun(devicePub, uuid, req);
      && Run(env, l, run).grants
         == [Grant(NewAccount(uuid, devicePub, 21, 0), req, DEFAULT_ACCOUNT_VALIDITY - 1, 0, true)]
      && Run(env, l, run[..6]).grants == []
      && FindById(Run(env, l, run[..6]).rows, uuid) == Some(NewAccount(uuid, devicePub, 13, DEFAULT_ACCOUNT_VALIDITY))
  {
    var run, now := RenewedRun(devicePub, uuid, req), DEFAULT_ACCOUNT_VALIDITY - 1;
    var a, b := NewAccount(uuid, devicePub, 21, 0), NewAccount(uuid, devicePub, 13, now + 1);
    RenewalOvertaken(env, l, devicePub, uuid, req);
    var s := RenewedState(a, b, req, now);
    MarkRenewed(env, l, devicePub, uuid, req);
    AdmitSteps(env, l, run, 5, s, 1, a, req, now);
    assert run[..7] == run;
  }

  // ---------------------------------------------------------------- a daily cap that is exceeded

  const MIDNIGHT_LIMITS := Limits(5, 30.0, 1)

  /** The three requests, each authentic at the clock value it is read with. */
  predicate MidnightRequests(env: Env, a: Account, first: IssueRequest, late: IssueRequest, next: IssueRequest) {
    && Authenticated(env, [a], first, 86399) == Ok(a) && Authenticated(env, [a], late, 86399) == Ok(a)
    && Authenticated(env, [a], next, 86400) == Ok(a)
    && first.fields.requestId != late.fields.requestId && first.fields.requestId != next.fields.requestId
    && late.fields.requestId != next.fields.requestId
    && first.fields.scope <= a.maxScope && late.fields.scope <= a.maxScope && next.fields.scope <= a.maxScope
  }

  /** The bucket of the account after each of the three calls. */
  lemma MidnightBuckets()
    ensures var l := MIDNIGHT_LIMITS;
      && Allowed(l, None, 86399.0) && After(l, None, 86399.0) == Bucket(4.0, 86399.0, 0, 1)
      && Allowed(l, Some(Bucket(4.0, 86399.0, 0, 1)), 86400.0)
      && After(l, Some(Bucket(4.0, 86399.0, 0, 1)), 86400.0) == Bucket(3.0 + 1.0 / 30.0, 86400.0, 1, 1)
      && Allowed(l, Some(Bucket(3.0 + 1.0 / 30.0, 86400.0, 1, 1)), 86399.0)
  {
    assert DayOf(86399.0) == 0 && DayOf(86400.0) == 1;
    assert 1.0 / 30.0 + 4.0 < 5.0;
  }

  /** The states after the first issuance, and after the second with the late handler waiting. */
  function AfterFirst(a: Account, first: IssueRequest): State {
    Admit(MIDNIGHT_LIMITS, Enrolled1(a), a, first, 86399)
  }

  function Waiting(a: Account, first: IssueRequest, late: IssueRequest): State {
    var s := AfterFirst(a, first);
    s.(handlers := s.handlers[2 := Authentic(a, late, 86399)])
  }

  function AfterNext(a: Account, first: IssueRequest, late: IssueRequest, next: IssueRequest): State {
    Admit(MIDNIGHT_LIMITS, Waiting(a, first, late), a, next, 86400)
  }

  /** Each of the three issuances finds its request id new and a slot free. */
  lemma FirstAdmissible(a: Account, first: IssueRequest)
    requires first.fields.scope <= a.maxScope
    ensures Admissible(MIDNIGHT_LIMITS, Enrolled1(a), a, first, 86399)
  {
    MidnightBuckets();
  }

  lemma NextAdmissible(a: Account, first: IssueRequest, late: IssueRequest, next: IssueRequest)
    requires first.fields.requestId != next.fields.requestId && next.fields.scope <= a.maxScope
    ensures Admissible(MIDNIGHT_LIMITS, Waiting(a, first, late), a, next, 86400)
  {
    MidnightBuckets();
  }

  lemma LateAdmissible(a: Account, first: IssueRequest, late: IssueRequest, next: IssueRequest)
    requires first.fields.requestId != late.fields.requestId && late.fields.requestId != next.fields.requestId
    requires late.fields.scope <= a.maxScope
    ensures Admissible(MIDNIGHT_LIMITS, AfterNext(a, first, late, next), a, late, 86399)
  {
    MidnightBuckets();
  }

  /** Enrol; issue in the last second of a day; read again in that second; issue in the first second of
      the next day; then go on with the handler that still holds the old clock value. */
  predicate MidnightSteps(run: seq<Step>, devicePub: Bytes, uuid: Bytes, first: IssueRequest, late: IssueRequest,
                          next: IssueRequest)
  {
    && |run| == 11 && run[0] == EnrollRead(0, devicePub, 0) && run[1] == EnrollWrite(0, 21, uuid)
    && run[2] == IssueRead(1, first, 86399) && run[3] == IssueMark(1) && run[4] == IssueAdmit(1, true)
    && run[5] == IssueRead(2, late, 86399)
    && run[6] == IssueRead(3, next, 86400) && run[7] == IssueMark(3) && run[8] == IssueAdmit(3, true)
    && run[9] == IssueMark(2) && run[10] == IssueAdmit(2, true)
  }

  /** The run of an account whose requests are authentic. */
  predicate Midnight(env: Env, run: seq<Step>, a: Account, uuid: Bytes, first: IssueRequest, late: IssueRequest,
                     next: IssueRequest)
  {
    && a == NewAccount(uuid, a.devicePub, 21, 0) && (env.keyDecodes)(a.devicePub)
    && MidnightSteps(run, a.devicePub, uuid, first, late, next) && MidnightRequests(env, a, first, late, next)
  }

  lemma FirstIssued(env: Env, run: seq<Step>, a: Account, uuid: Bytes, first: IssueRequest, late: IssueRequest,
                    next: IssueRequest)
    requires Midnight(env, run, a, uuid, first, late, next)
    ensures Run(env, MIDNIGHT_LIMITS, run[..5]) == AfterFirst(a, first)
  {
    FirstAdmissible(a, first);
    FirstEnrolment(env, MIDNIGHT_LIMITS, run, a.devicePub, 0, 21, uuid);
    IssueSteps(env, MIDNIGHT_LIMITS, run, 2, Enrolled1(a), 1, a, first, 86399);
  }

  lemma LateWaits(env: Env, run: seq<Step>, a: Account, uuid: Bytes, first: IssueRequest, late: IssueRequest,
                  next: IssueRequest)
    requires Midnight(env, run, a, uuid, first, late, next)
    ensures Run(env, MIDNIGHT_LIMITS, run[..6]) == Waiting(a, first, late)
  {
    FirstIssued(env, run, a, uuid, first, late, next);
    ReadStep(env, MIDNIGHT_LIMITS, run, 5, AfterFirst(a, first), 2, a, late, 86399);
  }

  lemma NextIssued(env: Env, run: seq<Step>, a: Account, uuid: Bytes, first: IssueRequest, late: IssueRequest,
                   next: IssueRequest)
    requires Midnight(env, run, a, uuid, first, late, next)
    ensures Run(env, MIDNIGHT_LIMITS, run[..9]) == AfterNext(a, first, late, next)
  {
    NextAdmissible(a, first, late, next);
    LateWaits(env, run, a, uuid, first, late, next);
    IssueSteps(env, MIDNIGHT_LIMITS, run, 6, Waiting(a, first, late), 3, a, next, 86400);
  }

  /** The grants at the end of the run. */
  lemma MidnightGrants(env: Env, run: seq<Step>, a: Account, uuid: Bytes, first: IssueRequest, late: IssueRequest,
                       next: IssueRequest)
    requires Midnight(env, run, a, uuid, first, late, next)
    ensures Run(env, MIDNIGHT_LIMITS, run).grants
         == [] + [Grant(a, first, 86399, 0, true)] + [Grant(a, next, 86400, 1, true)] + [Grant(a, late, 86399, 2, true)]
  {
    LateAdmissible(a, first, late, next);
    NextIssued(env, run, a, uuid, first, late, next);
    AdmitSteps(env, MIDNIGHT_LIMITS, run, 9, AfterNext(a, first, late, next), 2, a, late, 86399);
    assert run[..11] == run;
  }

  /** Two handlers that overtake each other around midnight: although every handler reads the clock
      after the one before it, a device obtains two blind signatures on a day whose cap is one. */
  lemma CapOvertaken(env: Env, run: seq<Step>, a: Account, uuid: Bytes, first: IssueRequest, late: IssueRequest,
                     next: IssueRequest)
    requires Midnight(env, run, a, uuid, first, late, next)
    ensures MIDNIGHT_LIMITS.Valid() && MIDNIGHT_LIMITS.dailyCap == 1
    ensures SignedOnDay(Run(env, MIDNIGHT_LIMITS, run).grants, a.devicePub, 0) == 2
  {
    MidnightGrants(env, run, a, uuid, first, late, next);
    CountThree(Grant(a, first, 86399, 0, true), Grant(a, next, 86400, 1, true), Grant(a, late, 86399, 2, true));
  }

  lemma CountThree(x: Grant, y: Grant, z: Grant)
    requires x.signed && z.signed && x.account.devicePub == z.account.devicePub
    requires x.now == 86399 && y.now == 86400 && z.now == 86399
    ensures SignedOnDay([] + [x] + [y] + [z], x.account.devicePub, 0) == 2
  {
    var device := x.account.devicePub;
    assert DayOf(86399.0) == 0 && DayOf(86400.0) == 1;
    OneMoreSigned([], x, device, 0);
    OneMoreSigned([] + [x], y, device, 0);
    OneMoreSigned([] + [x] + [y], z, device, 0);
  }
}
