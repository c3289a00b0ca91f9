/** The issuer's handlers: enrolment with one account per device key, and issuance behind
    authentication, replay protection and the rate limit. */
module Issuer {
  import opened Wrappers
  import opened Bytes
  import opened Rsa
  import opened TransLog
  import opened DeviceKey
  import opened IssuerTables
  import opened RateLimit
  import Federation
  import Rsabssa
  import Pss

  const DEFAULT_ACCOUNT_VALIDITY := 365 * 86400

  datatype EnrollError = BadDeviceKey | UnknownAttester | AttestationFailed | EnrollmentConflict

  datatype IssueError =
    | BadScope
    | UnknownOrExpiredAccount
    | BadIssuanceSignature
    | StaleRequest
    | ReplayedRequest
    | ScopeNotAuthorized
    | RateLimited(retryAfter: int)
    | NoActiveKey
    | Unsignable

  datatype IssueRequest = IssueRequest(fields: Issuance, signature: Bytes)

  datatype IssueResponse = IssueResponse(blindSig: Bytes, keyId: Bytes, scope: int, epoch: int)

  /** Foreign code: SHA-256, decoding of device keys, and Ed25519 verification of a signature on a message. */
  datatype Env = Env(sha: Hash, keyDecodes: Bytes -> bool, verifies: (Bytes, Bytes, Bytes) -> bool)

  // ---------------------------------------------------------------- enrolment

  function NewAccount(id: Bytes, devicePub: Bytes, maxScope: int, now: int): Account {
    Account(id, devicePub, maxScope, now, now + DEFAULT_ACCOUNT_VALIDITY)
  }

  /** An account that is returned as it stands. */
  predicate LiveAccount(existing: Option<Account>, now: int) {
    existing.Some? && existing.value.expiresAt > now
  }

  /** The first write of enrolment, given what the reading half found: renew it, or insert a new row.
      The account written, or none when the insert is refused; and the rows. */
  function EnrollFirst(rows: Rows, devicePub: Bytes, now: int, existing: Option<Account>, maxScope: int, uuid: Bytes)
    : (Option<Account>, Rows)
  {
    if existing.Some? then
      var account := NewAccount(existing.value.accountId, devicePub, maxScope, now);
      (Some(account), Renewed(rows, account.accountId, maxScope, now, account.expiresAt))
    else
      var account := NewAccount(uuid, devicePub, maxScope, now);
      if Insertable(rows, account) then (Some(account), rows + [account]) else (None, rows)
  }

  /** After a refused insert: the account of whoever was faster. */
  function Refetched(rows: Rows, devicePub: Bytes): Result<Account, EnrollError> {
    var winner := FindByDevice(rows, devicePub);
    if winner.None? then Err(EnrollmentConflict) else Ok(winner.value)
  }

  /** The whole of enrolment, undisturbed. */
  function Enrolled(env: Env, rows: Rows, devicePub: Bytes, now: int, attested: Result<int, EnrollError>, uuid: Bytes)
    : (Result<Account, EnrollError>, Rows)
  {
    if !(env.keyDecodes)(devicePub) then (Err(BadDeviceKey), rows)
    else
      var existing := FindByDevice(rows, devicePub);
      if LiveAccount(existing, now) then (Ok(existing.value), rows)
      else if attested.Err? then (Err(attested.error), rows)
      else
        var (written, rows') := EnrollFirst(rows, devicePub, now, existing, attested.value, uuid);
        (if written.Some? then Ok(written.value) else Refetched(rows', devicePub), rows')
  }

  /** What enrolment answers and stores. A live account is answered as it stands, whatever the attester would
      say. Otherwise the account gets the attested scope and a year from now: under its old id if it had
      expired, and as a new row if the device key is new. */
  lemma EnrolledExact(env: Env, rows: Rows, devicePub: Bytes, now: int, attested: Result<int, EnrollError>, uuid: Bytes)
    requires UniqueRows(rows)
    ensures var (answer, after) := Enrolled(env, rows, devicePub, now, attested, uuid);
      var existing := FindByDevice(rows, devicePub);
      if !(env.keyDecodes)(devicePub) then answer == Err(BadDeviceKey) && after == rows
      else if existing.Some? && existing.value.expiresAt > now then answer == Ok(existing.value) && after == rows
      else if attested.Err? then answer == Err(attested.error) && after == rows
      else if existing.Some? then
        && answer == Ok(Account(existing.value.accountId, devicePub, attested.value, now, now + 31536000))
        && RowReplaced(rows, after, answer.value)
      else if exists a :: a in rows && a.accountId == uuid then answer == Err(EnrollmentConflict) && after == rows
      else answer == Ok(Account(uuid, devicePub, attested.value, now, now + 31536000)) && after == rows + [answer.value]
  {
    var existing := FindByDevice(rows, devicePub);
    if (env.keyDecodes)(devicePub) && existing.Some? && existing.value.expiresAt <= now && attested.Ok? {
      var i :| 0 <= i < |rows| && rows[i] == existing.value;
      var after := Enrolled(env, rows, devicePub, now, attested, uuid).1;
      assert after[i] == Account(existing.value.accountId, devicePub, attested.value, now, now + 31536000);
    }
  }

  /** The row with this id is this account, and the other rows are as they were. */
  predicate RowReplaced(before: Rows, after: Rows, a: Account) {
    && |after| == |before| && a in after
    && forall i :: 0 <= i < |before| ==> after[i] == if before[i].accountId == a.accountId then a else before[i]
  }

  // ---------------------------------------------------------------- issuance

  /** The checks up to the timestamp: they read the account and change nothing. */
  function Authenticated(env: Env, rows: Rows, req: IssueRequest, now: int): Result<Account, IssueError> {
    if req.fields.scope !in SCOPES then Err(BadScope)
    else
      var account := FindById(rows, req.fields.accountId);
      if account.None? || account.value.expiresAt <= now then Err(UnknownOrExpiredAccount)
      else
        var key := account.value.devicePub;
        if !(env.keyDecodes)(key) || !FitsLayout(req.fields)
           || !(env.verifies)(key, req.signature, Payload(env.sha, req.fields)) then Err(BadIssuanceSignature)
        else if !(-ISSUANCE_TS_WINDOW <= req.fields.ts - now <= ISSUANCE_TS_WINDOW) then Err(StaleRequest)
        else Ok(account.value)
  }

  /** Scope and rate limit, after the request id has been recorded. */
  function Admitted(l: Limits, buckets: Buckets, account: Account, req: IssueRequest,
                    now: int): (Option<IssueError>, Buckets)
    requires l.Valid()
  {
    if req.fields.scope > account.maxScope then (Some(ScopeNotAuthorized), buckets)
    else
      var call := Call(account.accountId, now as real);
      var a := Ask(l, Get(buckets, call.key), call.now);
      (if a.allowed then None else Some(RateLimited(a.retryAfter)), Charge(l, buckets, call))
  }

  /** The blind signature under the scope's active key. */
  function Signed(signer: Result<(LogRecord, PrivateKey), Federation.FedError>,
                  sig: Rsabssa.Signature): Result<IssueResponse, IssueError>
  {
    if signer.Err? then Err(NoActiveKey)
    else if sig.Err? then Err(Unsignable)
    else
      var body := signer.value.0.body;
      Ok(IssueResponse(sig.value, body.keyId, body.scope, body.epoch))
  }

  /** The whole of issuance, undisturbed: the answer, the request ids and the buckets. */
  function Issued(env: Env, l: Limits, rows: Rows, seen: Seen, buckets: Buckets, req: IssueRequest, now: int,
                  signer: Result<(LogRecord, PrivateKey), Federation.FedError>, sig: Rsabssa.Signature)
    : (Result<IssueResponse, IssueError>, Seen, Buckets)
    requires l.Valid()
  {
    var auth := Authenticated(env, rows, req, now);
    if auth.Err? then (Err(auth.error), seen, buckets)
    else
      var seen' := Marked(seen, req.fields.requestId, now, DEFAULT_WINDOW);
      if !IsNew(seen, req.fields.requestId, now, DEFAULT_WINDOW) then (Err(ReplayedRequest), seen', buckets)
      else
        var (refusal, buckets') := Admitted(l, buckets, auth.value, req, now);
        if refusal.Some? then (Err(refusal.value), seen', buckets')
        else (Signed(signer, sig), seen', buckets')
  }

  /** Which requests are authentic: exactly those for a known scope, on an account that has not expired, whose
      device key decodes and verifies the signature on the payload, with fields of the right lengths and a
      timestamp at most 60 seconds away, in either direction. */
  lemma AuthenticatedExact(env: Env, rows: Rows, req: IssueRequest, now: int, account: Account)
    ensures var f := req.fields;
      Authenticated(env, rows, req, now) == Ok(account) <==>
        && f.scope in {13, 16, 18, 21}
        && FindById(rows, f.accountId) == Some(account) && account.expiresAt > now
        && (env.keyDecodes)(account.devicePub) && FitsLayout(f)
        && (env.verifies)(account.devicePub, req.signature, Payload(env.sha, f))
        && -60 <= f.ts - now <= 60
  {
  }

  /** Everything that one issuance depends on. */
  datatype Case = Case(env: Env, l: Limits, rows: Rows, seen: Seen, buckets: Buckets, req: IssueRequest, now: int,
                       signer: Result<(LogRecord, PrivateKey), Federation.FedError>, sig: Rsabssa.Signature)
  {
    ghost predicate Valid() { l.Valid() }

    function Account(): Option<Account> { FindById(rows, req.fields.accountId) }

    function Bucket(): Option<Bucket> { Get(buckets, req.fields.accountId) }

    function Outcome(): (Result<IssueResponse, IssueError>, Seen, Buckets)
      requires Valid()
    {
      Issued(env, l, rows, seen, buckets, req, now, signer, sig)
    }
  }

  /** What check number `k` of an issuance asks, when those before it have been passed. */
  predicate Passes(i: Case, k: nat)
    requires i.Valid()
  {
    var f, account := i.req.fields, i.Account();
    if k == 0 then f.scope in {13, 16, 18, 21}
    else if k == 1 then account.Some? && account.value.expiresAt > i.now
    else if k == 2 then
      && account.Some? && (i.env.keyDecodes)(account.value.devicePub) && FitsLayout(f)
      && (i.env.verifies)(account.value.devicePub, i.req.signature, Payload(i.env.sha, f))
    else if k == 3 then -60 <= f.ts - i.now <= 60
    else if k == 4 then f.requestId !in i.seen || i.seen[f.requestId] < i.now - 600
    else if k == 5 then account.Some? && f.scope <= account.value.maxScope
    else if k == 6 then Allowed(i.l, i.Bucket(), i.now as real)
    else if k == 7 then i.signer.Ok?
    else if k == 8 then i.sig.Ok?
    else true
  }

  /** What is answered when check number `k` is the first that fails; the wait is the limiter's. */
  function Refusal(i: Case, k: nat): IssueError
    requires i.Valid() && k < 9
  {
    [BadScope, UnknownOrExpiredAccount, BadIssuanceSignature, StaleRequest, ReplayedRequest, ScopeNotAuthorized,
     RateLimited(Ask(i.l, i.Bucket(), i.now as real).retryAfter), NoActiveKey, Unsignable][k]
  }

  /** The first check from `k` on that fails; nine if none does. */
  function FirstFailing(i: Case, k: nat): (r: nat)
    requires i.Valid() && k <= 9
    ensures k <= r <= 9 && (forall j :: k <= j < r ==> Passes(i, j)) && (r < 9 ==> !Passes(i, r))
    decreases 9 - k
  {
    if k == 9 || !Passes(i, k) then k else FirstFailing(i, k + 1)
  }

  /** The request ids after an authentic request: those older than 600 seconds are gone, the others stay, and
      this one is there. */
  ghost predicate Remembers(before: Seen, after: Seen, id: Bytes, now: int) {
    && (forall other :: other in after <==> other == id || (other in before && before[other] >= now - 600))
    && forall other :: other in after ==>
         after[other] == if other in before && before[other] >= now - 600 then before[other] else now
  }

  lemma AuthenticChecks(i: Case)
    requires i.Valid()
    ensures var auth, k := Authenticated(i.env, i.rows, i.req, i.now), FirstFailing(i, 0);
      if k < 4 then auth == Err(Refusal(i, k)) else auth.Ok? && i.Account() == Some(auth.value)
  {
  }

  lemma MarkChecks(i: Case)
    requires i.Valid()
    ensures IsNew(i.seen, i.req.fields.requestId, i.now, DEFAULT_WINDOW) <==> Passes(i, 4)
    ensures Remembers(i.seen, Marked(i.seen, i.req.fields.requestId, i.now, DEFAULT_WINDOW), i.req.fields.requestId,
                      i.now)
  {
  }

  lemma AdmitChecks(i: Case, account: Account)
    requires i.Valid() && i.Account() == Some(account) && account.accountId == i.req.fields.accountId
    ensures var (refusal, buckets) := Admitted(i.l, i.buckets, account, i.req, i.now);
      && refusal == (if !Passes(i, 5) then Some(Refusal(i, 5)) else if !Passes(i, 6) then Some(Refusal(i, 6)) else None)
      && buckets == if !Passes(i, 5) then i.buckets
                    else i.buckets[account.accountId := After(i.l, i.Bucket(), i.now as real)]
  {
    AskExact(i.l, i.Bucket(), i.now as real);
  }

  /** The whole of issuance. The first of the nine checks that fails decides the answer, and a request that
      passes them all is answered with the blind signature and key id, scope and epoch of the signing
      record. The request id is recorded exactly when authentication succeeds, and the limiter is charged
      exactly when the scope is within the account's. */
  lemma IssuedExact(i: Case)
    requires i.Valid()
    ensures var ((answer, seen, buckets), k) := (i.Outcome(), FirstFailing(i, 0));
      && answer == (if k < 9 then Err(Refusal(i, k))
                    else var body := i.signer.value.0.body;
                         Ok(IssueResponse(i.sig.value, body.keyId, body.scope, body.epoch)))
      && (if k < 4 then seen == i.seen else Remembers(i.seen, seen, i.req.fields.requestId, i.now))
      && buckets == if k < 6 then i.buckets
                    else i.buckets[i.req.fields.accountId := After(i.l, i.Bucket(), i.now as real)]
  {
    AuthenticChecks(i);
    MarkChecks(i);
    if FirstFailing(i, 0) > 4 { AdmitChecks(i, i.Account().value); }
  }

  /** A request is answered with a signature if and only if it passes all nine checks. */
  lemma IssuedIff(i: Case)
    requires i.Valid()
    ensures i.Outcome().0.Ok? <==> forall k :: 0 <= k < 9 ==> Passes(i, k)
  {
    IssuedExact(i);
  }

  /** The two handlers over the store and the limiter they change. */
  class IssuerApp {
    const env: Env
    const store: IssuerStore
    const limiter: RateLimiter

    constructor (env: Env, store: IssuerStore, limiter: RateLimiter)
      ensures this.env == env && this.store == store && this.limiter == limiter
    {
      this.env, this.store, this.limiter := env, store, limiter;
    }

    /** Enrol a device key. `attested` is what the attester answers, `uuid` a freshly drawn account id. */
    method Enroll(devicePub: Bytes, now: int, attested: Result<int, EnrollError>, uuid: Bytes)
      returns (r: Result<Account, EnrollError>)
      requires store.Valid()
      modifies store`accounts
      ensures store.Valid()
      ensures (r, store.accounts) == Enrolled(env, old(store.accounts), devicePub, now, attested, uuid)
    {
      if !(env.keyDecodes)(devicePub) {
        return Err(BadDeviceKey);
      }
      var existing := store.GetAccountByDevice(devicePub);
      if existing.Some? && existing.value.expiresAt > now {
        return Ok(existing.value);
      }
      if attested.Err? {
        return Err(attested.error);
      }
      if existing.Some? {
        var renewed := NewAccount(existing.value.accountId, devicePub, attested.value, now);
        store.RenewAccount(existing.value.accountId, attested.value, now, renewed.expiresAt);
        return Ok(renewed);
      }
      var account := NewAccount(uuid, devicePub, attested.value, now);
      var added := store.AddAccount(account);
      if !added {
        var winner := store.GetAccountByDevice(devicePub);
        match winner
        case None => return Err(EnrollmentConflict);
        case Some(other) => account := other;
      }
      r := Ok(account);
    }

    /** Issue a blind signature. `signer` is the active key of the loaded federation state, `draws` the
        signer's random values. */
    method Issue(req: IssueRequest, now: int, signer: Result<(LogRecord, PrivateKey), Federation.FedError>,
                 draws: seq<nat>)
      returns (r: Result<IssueResponse, IssueError>)
      requires limiter.limits.Valid()
      requires signer.Ok? ==> signer.value.1.N() > 1 && Rsabssa.SomeUnit(draws, signer.value.1.N())
      modifies store`seen, limiter
      ensures Issued(env, limiter.limits, store.accounts, old(store.seen), old(limiter.state), req, now, signer,
                     if signer.Ok? then Rsabssa.SignWith(signer.value.1, req.fields.blindedMsg,
                                                         Rsabssa.FirstUnit(draws, signer.value.1.N()))
                     else Err(Pss.SigningFailure))
           == (r, store.seen, limiter.state)
    {
      if req.fields.scope !in SCOPES {
        return Err(BadScope);
      }
      var account := store.GetAccount(req.fields.accountId);
      if account.None? || account.value.expiresAt <= now {
        return Err(UnknownOrExpiredAccount);
      }
      var key := account.value.devicePub;
      if !(env.keyDecodes)(key) || !FitsLayout(req.fields) {
        return Err(BadIssuanceSignature);
      }
      if !(env.verifies)(key, req.signature, Payload(env.sha, req.fields)) {
        return Err(BadIssuanceSignature);
      }
      if !(-ISSUANCE_TS_WINDOW <= req.fields.ts - now <= ISSUANCE_TS_WINDOW) {
        return Err(StaleRequest);
      }
      var isNew := store.MarkRequest(req.fields.requestId, now, DEFAULT_WINDOW);
      if !isNew {
        return Err(ReplayedRequest);
      }
      if req.fields.scope > account.value.maxScope {
        return Err(ScopeNotAuthorized);
      }
      var a := limiter.Check(req.fields.accountId, now as real);
      if !a.allowed {
        return Err(RateLimited(a.retryAfter));
      }
      if signer.Err? {
        return Err(NoActiveKey);
      }
      var sig := Rsabssa.BlindSign(signer.value.1, req.fields.blindedMsg, draws);
      r := Signed(signer, sig);
    }
  }
}
