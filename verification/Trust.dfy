/** The key lifecycle and the token chain together: when relying parties accept what the issuer signs,
    under the projection of the log on disk and under the keyset file. */
module Trust {
  import opened Wrappers
  import opened Modular
  import opened Bytes
  import opened Rsa
  import opened TransLog
  import opened ActiveKeys
  import opened Keys
  import opened Federation
  import opened Lifecycle
  import opened LifecycleRuns
  import opened PublicFiles
  import Rsabssa
  import Token
  import Verifier
  import EndToEnd

  // ---------------------------------------------------------------- key ids and records

  /** The key usable at a later time is the usable key already when the keyset is projected. */
  lemma KeyStable(c: KeyCodec, records: Log, scope: int, p: int, t: int)
    requires GoodLog(c, records, p) && p <= t && ActiveRecordFor(records, scope, t).Some?
    ensures ActiveRecordFor(records, scope, p) == ActiveRecordFor(records, scope, t)
  {
    ActiveRecordExact(records, scope, t);
    var k :| Candidate(records, scope, t, k) && records[k] == ActiveRecordFor(records, scope, t).value;
    CandidateIsLive(c, records, p, scope, t, k);
    CandidateIsLive(c, records, p, scope, p, k);
    forall i | Candidate(records, scope, p, i)
      ensures i == k
    {
      OneLiveKey(c, records, p, i, k);
    }
    OnlyCandidate(records, scope, p, k);
  }

  /** An entry of a projected keyset that has the key id of a logged record is the active record of that
      record's scope. */
  lemma EntryIsActive(c: KeyCodec, records: Log, p: int, entry: ScopeKeyRecord, i: nat)
    requires GoodLog(c, records, p) && i < |records|
    requires entry in ActiveKeyset(records, p) && entry.keyId == records[i].body.keyId
    ensures EntryOf(records, records[i].body.scope, p, entry)
  {
    KeysetExact(records, SCOPES, p, entry);
    var s :| s in SCOPES && EntryOf(records, s, p, entry);
    ActiveRecordExact(records, s, p);
    var j :| 0 <= j < |records| && records[j] == ActiveRecordFor(records, s, p).value;
    assert records[i].body.keyId == records[j].body.keyId;
  }

  /** A keyset resolves a key id to an entry that shows this record. */
  predicate Resolves(keyset: seq<ScopeKeyRecord>, r: LogRecord) {
    var found := Verifier.RecordFor(keyset, r.body.keyId);
    found.Some? && Shows(found.value, r)
  }

  /** A projected keyset resolves the key id of an active record to an entry that shows it. */
  lemma KeysetResolves(c: KeyCodec, records: Log, scope: int, p: int)
    requires GoodLog(c, records, p) && ActiveRecordFor(records, scope, p).Some?
    ensures Resolves(ActiveKeyset(records, p), ActiveRecordFor(records, scope, p).value)
  {
    var r := ActiveRecordFor(records, scope, p).value;
    var keyset := ActiveKeyset(records, p);
    ActiveRecordExact(records, scope, p);
    var i :| 0 <= i < |records| && records[i] == r;
    KeysetExact(records, SCOPES, p, ToScopeKeyRecord(r));
    assert EntryOf(records, scope, p, ToScopeKeyRecord(r));
    var found := Verifier.RecordFor(keyset, r.body.keyId);
    assert found.Some? && found.value in keyset;
    EntryIsActive(c, records, p, found.value, i);
  }

  /** A torn rotation or revocation of a scope removes the scope's current key id from the projection. */
  lemma TornDropsKey(c: KeyCodec, before: Log, ahead: Log, op: Op, i: nat)
    requires ExtendedBy(c, before, ahead, op) && GoodLog(c, before, op.now) && i < |before|
    requires before[i].body.scope == op.scope
    ensures Verifier.RecordFor(ActiveKeyset(ahead, op.now), before[i].body.keyId) == None
  {
    ExtendedGood(c, before, ahead, op.now, op);
    var keyset := ActiveKeyset(ahead, op.now);
    var found := Verifier.RecordFor(keyset, before[i].body.keyId);
    if found.Some? {
      assert found.value in keyset && ahead[i] == before[i];
      EntryIsActive(c, ahead, op.now, found.value, i);
      if op.Rotate? {
        RotatedActive(c, before, ahead, op.now, op, op.now);
      } else {
        RevokedActive(c, before, ahead, op.now, op, op.now);
      }
    }
  }

  // ---------------------------------------------------------------- the issuer's signer and its tokens

  /** A key pair that the policy admits and whose encoding decodes. */
  ghost predicate PolicyKey(c: KeyCodec, key: PrivateKey) {
    && key.Valid() && key.e == REQUIRED_PUBLIC_EXPONENT && BitLen(key.N()) in ALLOWED_MODULUS_BITS && key.N() > 1
    && (c.decode)((c.encode)(key.Public())) == Some(key.Public())
  }

  /** The random choices of one exchange, the user agent's and the signer's, fit for this modulus. */
  datatype Draws = Draws(prefix: Bytes, salt: Bytes, r: nat, z: nat) {
    predicate FitUser(n: nat) {
      |prefix| == Rsabssa.PREFIX_LEN && |salt| == Rsabssa.DEFAULT_VARIANT.saltLen && 0 < r < n
    }

    predicate Fit(n: nat) {
      FitUser(n) && Gcd(z, n) == 1
    }
  }

  /** The record the issuer signs under for a scope, and its key pair. */
  ghost predicate Signs(c: KeyCodec, disk: Disk, scope: int, t: int, r: LogRecord, key: PrivateKey) {
    disk.log.Some? && ActiveKey(c, disk.log.value, disk.pems, scope, t) == Ok((r, key)) && PolicyKey(c, key)
  }

  /** The token that an honest exchange for a challenge ends with: request, blind signature, finalisation;
      none if the user agent could not make a request. */
  ghost function Obtained(x: Verifier.Crypto, key: PrivateKey, keyId: Bytes, c: Token.Challenge,
                          d: Draws): Option<Bytes>
    requires key.N() > 1 && d.Fit(key.N())
  {
    var request := EndToEnd.Request(x, key.Public(), keyId, c, d.prefix, d.salt, d.r);
    if request.None? then None
    else
      var reply := Rsabssa.SignWith(key, request.value.blinded, d.z);
      if reply.Err? then None else EndToEnd.Receive(x, key.Public(), request.value, reply.value)
  }

  /** Record and challenge can be used together at this time: within the validity that the log gives the key,
      and in the last 600 seconds before the challenge expires. */
  predicate InTime(r: LogRecord, c: Token.Challenge, now: int) {
    r.body.notBefore <= now <= r.body.notAfter && c.expiresAt - 600 <= now < c.expiresAt
  }

  /** At every time at which the issuer can sign, its record is within its validity. */
  lemma SignerInTime(c: KeyCodec, disk: Disk, scope: int, t: int, r: LogRecord, key: PrivateKey)
    requires Signs(c, disk, scope, t, r, key)
    ensures r.body.notBefore <= t <= r.body.notAfter && r.body.status == Active
  {
    ActiveRecordExact(disk.log.value, scope, t);
  }

  /** The record behind the issuer's signing key yields exactly that key's public half. */
  lemma SignerRecord(c: KeyCodec, disk: Disk, clock: int, scope: int, t: int, r: LogRecord,
                     key: PrivateKey)
    returns (i: nat)
    requires Inv(c, disk, clock) && Signs(c, disk, scope, t, r, key)
    ensures ActiveRecordFor(disk.log.value, scope, t) == Some(r) && r.body.scope == scope && r.body.status == Active
    ensures |r.body.keyId| == 32 && ToScopeKeyRecord(r).Key(c) == Some(key.Public())
    ensures i < |disk.log.value| && disk.log.value[i] == r
  {
    var records := disk.log.value;
    ActiveRecordExact(records, scope, t);
    i :| Candidate(records, scope, t, i) && records[i] == r;
    assert OnFile(c, disk.pems, records[i].body);
  }

  /** An honest exchange that starts is carried through, and its token is decided by whether the keyset
      resolves the key id it was requested under. */
  lemma HonestDecided(x: Verifier.Crypto, keyset: seq<ScopeKeyRecord>, r: LogRecord, key: PrivateKey,
                      c: Token.Challenge, d: Draws, now: int)
    requires PolicyKey(x.codec, key) && d.Fit(key.N()) && |r.body.keyId| == 32
    requires ToScopeKeyRecord(r).Key(x.codec) == Some(key.Public())
    requires r.body.scope == c.scope && r.body.status == Active && InTime(r, c, now)
    requires EndToEnd.Request(x, key.Public(), r.body.keyId, c, d.prefix, d.salt, d.r).Some?
    ensures var wire := Obtained(x, key, r.body.keyId, c, d);
      var found := Verifier.RecordFor(keyset, r.body.keyId);
      && wire.Some?
      && (Resolves(keyset, r) ==>
            Verifier.VerifyToken(x, wire.value, keyset, c, now) == Ok(Verifier.Verdict(Verifier.OK, Some(c.scope))))
      && (found == None ==> Verifier.VerifyToken(x, wire.value, keyset, c, now) == Verifier.Reject(Verifier.UnknownKey))
  {
    var record := ToScopeKeyRecord(r);
    ProjectionExact(r, record);
    EndToEnd.RequestParts(x, key.Public(), record.keyId, c, d.prefix, d.salt, d.r);
    EndToEnd.HonestChain(x, key, record.keyId, c, d.prefix, d.salt, d.r, d.z);
    var request := EndToEnd.Request(x, key.Public(), record.keyId, c, d.prefix, d.salt, d.r).value;
    var reply := Rsabssa.SignWith(key, request.blinded, d.z).value;
    EndToEnd.ReceivedFields(x, key.Public(), record.keyId, c, d.prefix, d.salt, d.r, reply);
    if Resolves(keyset, r) {
      ProjectionExact(r, Verifier.RecordFor(keyset, record.keyId).value);
      EndToEnd.AnyReplySafe(x, keyset, record, key.Public(), c, d.prefix, d.salt, d.r, reply, now);
    }
  }

  // ---------------------------------------------------------------- under the projection of the log

  /** Signing and trust agree over every history of keys: after every run of the key lifecycle from the
      empty directory, whenever the issuer can sign for a scope at `t`, a verifier whose keyset is the
      projection of the log on disk, taken at any `p` before, accepts the token of every honest exchange
      for the scope at every time at which challenge and key can be used. */
  lemma RunSignedIsTrusted(x: Verifier.Crypto, start: int, ops: seq<Op>, p: int, t: int, r: LogRecord, key: PrivateKey,
                           c: Token.Challenge, d: Draws, now: int)
    requires History(x.codec, start, ops) && LastClock(start, ops) <= p <= t
    requires Signs(x.codec, Run(x.codec, EMPTY_DISK, ops), c.scope, t, r, key) && d.Fit(key.N())
    requires InTime(r, c, now)
    requires EndToEnd.Request(x, key.Public(), r.body.keyId, c, d.prefix, d.salt, d.r).Some?
    ensures var wire := Obtained(x, key, r.body.keyId, c, d);
      && wire.Some?
      && Verifier.VerifyToken(x, wire.value, ActiveKeyset(Run(x.codec, EMPTY_DISK, ops).log.value, p), c, now)
         == Ok(Verifier.Verdict(Verifier.OK, Some(c.scope)))
  {
    var disk, clock := Run(x.codec, EMPTY_DISK, ops), LastClock(start, ops);
    ReachableInv(x.codec, start, ops);
    var i := SignerRecord(x.codec, disk, clock, c.scope, t, r, key);
    GoodLater(x.codec, disk.log.value, clock, p);
    KeyStable(x.codec, disk.log.value, c.scope, p, t);
    KeysetResolves(x.codec, disk.log.value, c.scope, p);
    HonestDecided(x, ActiveKeyset(disk.log.value, p), r, key, c, d, now);
  }

  /** Whatever is accepted under a keyset has an entry of the challenged scope there. */
  lemma AcceptedHasEntry(x: Verifier.Crypto, keyset: seq<ScopeKeyRecord>, wire: Bytes, c: Token.Challenge, now: int)
    requires Verifier.Accepted(x, wire, keyset, c, now)
    ensures exists entry :: entry in keyset && entry.scope == c.scope
  {
    var found := Verifier.RecordFor(keyset, Token.ParseToken(wire).value.keyId).value;
    assert found in keyset && found.scope == c.scope;
  }

  /** From a finished revocation until the scope is next rotated, no token for the scope is accepted
      under any projection, taken in that time, of the log on disk, whatever it contains and whoever
      signed it. */
  lemma RevokedIsRefused(x: Verifier.Crypto, disk: Disk, clock: int, op: Op, later: seq<Op>, p: int,
                         wire: Bytes, c: Token.Challenge, now: int)
    requires op.Revoke? && Inv(x.codec, disk, clock) && Permitted(x.codec, disk, clock, op)
    requires Step(x.codec, disk, op).1 == Done
    requires AllWellFormed(later) && RunPermitted(x.codec, Step(x.codec, disk, op).0, op.now, later)
    requires RunElsewhere(x.codec, Step(x.codec, disk, op).0, later, op.scope) && op.now <= p
    requires c.scope == op.scope
    ensures Run(x.codec, Step(x.codec, disk, op).0, later).log.Some?
    ensures var records := Run(x.codec, Step(x.codec, disk, op).0, later).log.value;
      !Verifier.Accepted(x, wire, ActiveKeyset(records, p), c, now)
  {
    RevocationLasts(x.codec, disk, clock, op, later, p);
    var records := Run(x.codec, Step(x.codec, disk, op).0, later).log.value;
    KeysetHasScope(records, op.scope, p);
    if Verifier.Accepted(x, wire, ActiveKeyset(records, p), c, now) {
      AcceptedHasEntry(x, ActiveKeyset(records, p), wire, c, now);
    }
  }

  // ---------------------------------------------------------------- under the keyset file

  /** The keyset file resolves the key id of the issuer's signing key, to its record, exactly when the
      file serves the scope: it is there, and no rotation or revocation of the scope has torn it from
      the log. */
  lemma FileResolvesExact(c: KeyCodec, start: int, ops: seq<Op>, scope: int, t: int, r: LogRecord, key: PrivateKey)
    requires History(c, start, ops) && LastClock(start, ops) <= t
    requires Signs(c, Run(c, EMPTY_DISK, ops), scope, t, r, key)
    ensures var disk := Run(c, EMPTY_DISK, ops);
      && (Resolves(PinnedKeys(disk), r) <==> Serves(disk, Torn(c, ops), scope))
      && (Verifier.RecordFor(PinnedKeys(disk), r.body.keyId) == None <==> !Serves(disk, Torn(c, ops), scope))
  {
    var disk, clock, tear := Run(c, EMPTY_DISK, ops), LastClock(start, ops), Torn(c, ops);
    ReachableInv(c, start, ops);
    RunKeysetInv(c, EMPTY_DISK, start, start, ops, None);
    var i := SignerRecord(c, disk, clock, scope, t, r, key);
    if disk.keyset.Some? {
      var ahead, p :| FileOf(c, disk, start, clock, tear, ahead, p);
      if Serves(disk, tear, scope) {
        KeyStable(c, disk.log.value, scope, p, t);
        OtherScopesAgree(c, disk, start, clock, tear, ahead, p, scope, p);
        KeysetResolves(c, ahead, scope, p);
      } else {
        TornDropsKey(c, disk.log.value, ahead, tear.value, i);
      }
    }
  }

  /** Signing and the keyset file: after every run of the key lifecycle from the empty directory, a relying
      party that reads the keyset file accepts the token of every honest exchange, at every time at which
      challenge and key can be used, if and only if the file serves the scope; otherwise it answers that
      the key is unknown. */
  lemma FileTrustExact(x: Verifier.Crypto, start: int, ops: seq<Op>, t: int, r: LogRecord, key: PrivateKey,
                       c: Token.Challenge, d: Draws, now: int)
    requires History(x.codec, start, ops) && LastClock(start, ops) <= t
    requires Signs(x.codec, Run(x.codec, EMPTY_DISK, ops), c.scope, t, r, key) && d.Fit(key.N())
    requires InTime(r, c, now)
    requires EndToEnd.Request(x, key.Public(), r.body.keyId, c, d.prefix, d.salt, d.r).Some?
    ensures var disk, wire := Run(x.codec, EMPTY_DISK, ops), Obtained(x, key, r.body.keyId, c, d);
      && wire.Some?
      && Verifier.VerifyToken(x, wire.value, PinnedKeys(disk), c, now)
         == if Serves(disk, Torn(x.codec, ops), c.scope) then Ok(Verifier.Verdict(Verifier.OK, Some(c.scope)))
            else Verifier.Reject(Verifier.UnknownKey)
  {
    var disk := Run(x.codec, EMPTY_DISK, ops);
    ReachableInv(x.codec, start, ops);
    var i := SignerRecord(x.codec, disk, LastClock(start, ops), c.scope, t, r, key);
    FileResolvesExact(x.codec, start, ops, c.scope, t, r, key);
    HonestDecided(x, PinnedKeys(disk), r, key, c, d, now);
  }

  /** Both at once, for a redemption at any time at which the issuer can still sign: in the last 600 seconds of
      the challenge the token of every honest exchange is accepted under the projection of the log, taken
      at any `p` before, and under the keyset file exactly when that serves the scope. */
  lemma TrustedWhileSigning(x: Verifier.Crypto, start: int, ops: seq<Op>, p: int, now: int, r: LogRecord,
                            key: PrivateKey, c: Token.Challenge, d: Draws)
    requires History(x.codec, start, ops) && LastClock(start, ops) <= p <= now
    requires Signs(x.codec, Run(x.codec, EMPTY_DISK, ops), c.scope, now, r, key) && d.Fit(key.N())
    requires c.expiresAt - 600 <= now < c.expiresAt
    requires EndToEnd.Request(x, key.Public(), r.body.keyId, c, d.prefix, d.salt, d.r).Some?
    ensures var disk, wire := Run(x.codec, EMPTY_DISK, ops), Obtained(x, key, r.body.keyId, c, d);
      && wire.Some? && Verifier.Accepted(x, wire.value, ActiveKeyset(disk.log.value, p), c, now)
      && (Verifier.Accepted(x, wire.value, PinnedKeys(disk), c, now) <==> Serves(disk, Torn(x.codec, ops), c.scope))
  {
    SignerInTime(x.codec, Run(x.codec, EMPTY_DISK, ops), c.scope, now, r, key);
    RunSignedIsTrusted(x, start, ops, p, now, r, key, c, d, now);
    FileTrustExact(x, start, ops, now, r, key, c, d, now);
  }

  /** A rotation of this scope has put its key, valid at least for the moment, into the keyset file and
      then stopped before the log. */
  predicate UnpublishedKey(tear: Option<Op>, scope: int) {
    tear.Some? && tear.value.Rotate? && tear.value.scope == scope && tear.value.validity >= 0
  }

  /** For a scope without an active key in the log, the file has an entry exactly when a torn rotation
      put it there. */
  lemma TornEntry(c: KeyCodec, disk: Disk, from: int, clock: int, tear: Option<Op>, ahead: Log, p: int, scope: int)
    requires FileOf(c, disk, from, clock, tear, ahead, p) && ActiveRecordFor(disk.log.value, scope, p) == None
    ensures (exists entry :: entry in PinnedKeys(disk) && entry.scope == scope) <==> UnpublishedKey(tear, scope)
  {
    KeysetHasScope(ahead, scope, p);
    if Serves(disk, tear, scope) {
      OtherScopesAgree(c, disk, from, clock, tear, ahead, p, scope, p);
    } else if tear.value.Rotate? {
      RotatedActive(c, disk.log.value, ahead, p, tear.value, p);
      RotateGood(c, disk.log.value, ahead, p, tear.value);
    }
  }

  /** The keyset file after a finished revocation and any later operations. */
  lemma FileAfterRevocation(c: KeyCodec, disk: Disk, clock: int, op: Op, later: seq<Op>) returns (ahead: Log, p: int)
    requires op.Revoke? && Inv(c, disk, clock) && Permitted(c, disk, clock, op) && Step(c, disk, op).1 == Done
    requires AllWellFormed(later) && RunPermitted(c, Step(c, disk, op).0, op.now, later)
    ensures var next := Step(c, disk, op).0;
      FileOf(c, Run(c, next, later), op.now, LastClock(op.now, later), TearOf(c, next, later, None), ahead, p)
  {
    var next := Step(c, disk, op).0;
    OpExact(c, disk, op);
    KeysetReplaced(c, disk, next, clock, clock, op, Target(c, disk, op).value);
    StepKeepsInv(c, disk, clock, op);
    RunKeysetInv(c, next, op.now, op.now, later, None);
    var end, tear := Run(c, next, later), TearOf(c, next, later, None);
    ahead, p :| FileOf(c, end, op.now, LastClock(op.now, later), tear, ahead, p);
  }

  /** From a finished revocation until the scope is next rotated, the keyset file has an entry of the
      scope exactly when it is the file of a rotation of the scope that has since stopped before the log;
      in all other cases no token for the scope is accepted under the file. */
  lemma RevokedFileExact(x: Verifier.Crypto, disk: Disk, clock: int, op: Op, later: seq<Op>)
    requires op.Revoke? && Inv(x.codec, disk, clock) && Permitted(x.codec, disk, clock, op)
    requires Step(x.codec, disk, op).1 == Done
    requires AllWellFormed(later) && RunPermitted(x.codec, Step(x.codec, disk, op).0, op.now, later)
    requires RunElsewhere(x.codec, Step(x.codec, disk, op).0, later, op.scope)
    ensures var next := Step(x.codec, disk, op).0;
      var pinned := PinnedKeys(Run(x.codec, next, later));
      var unpublished := UnpublishedKey(TearOf(x.codec, next, later, None), op.scope);
      && ((exists entry :: entry in pinned && entry.scope == op.scope) <==> unpublished)
      && (!unpublished ==> forall wire: Bytes, c: Token.Challenge, now ::
            c.scope == op.scope ==> !Verifier.Accepted(x, wire, pinned, c, now))
  {
    var next := Step(x.codec, disk, op).0;
    var end, tear := Run(x.codec, next, later), TearOf(x.codec, next, later, None);
    var ahead, p := FileAfterRevocation(x.codec, disk, clock, op, later);
    RevocationLasts(x.codec, disk, clock, op, later, p);
    TornEntry(x.codec, end, op.now, LastClock(op.now, later), tear, ahead, p, op.scope);
    forall wire: Bytes, c: Token.Challenge, now
      | c.scope == op.scope && Verifier.Accepted(x, wire, PinnedKeys(end), c, now)
      ensures UnpublishedKey(tear, op.scope)
    {
      AcceptedHasEntry(x, PinnedKeys(end), wire, c, now);
    }
  }
}
