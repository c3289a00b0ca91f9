/** One token's whole way: a challenge that the relying party stores, the issuer's answer to the request for
    it, and the redemption, each inside a run of its own component. */
module Flow {
  import opened Wrappers
  import opened Bytes
  import opened Rsa
  import opened TransLog
  import opened Keys
  import opened Token
  import opened Verifier
  import opened PendingStores
  import opened RelyingParty
  import opened RelyingPartyRuns
  import opened Trust
  import Federation
  import Lifecycle
  import LifecycleRuns
  import PublicFiles
  import Issuer
  import Rsabssa
  import EndToEnd

  // ---------------------------------------------------------------- a challenge stays until it is taken

  /** What the store would give for this challenge at `at`. */
  predicate Available(s: State, c: Challenge, at: int) {
    s.store.Popped(c.nonce, at) == Ok(Some(c))
  }

  /** A step that leaves the challenge in the store: no other challenge under its nonce, no redemption of
      its nonce, and, in process memory, no sweep at or after its expiry. */
  predicate Spares(s: State, step: Step, c: Challenge) {
    match step
    case ChallengeStart(_, _, now) => s.store.Memory? ==> now < c.expiresAt
    case RedeemStart(_, _, now) => s.store.Memory? ==> now < c.expiresAt
    case ChallengePut(_, _, nonce, _) => nonce != c.nonce
    case RedeemPop(h, _) =>
      h in s.handlers && s.handlers[h].Redeeming? && ParseToken(s.handlers[h].wire).Ok? ==>
        ParseToken(s.handlers[h].wire).value.nonce != c.nonce
    case RedeemVerify(_, _) => true
  }

  lemma PutAvailable(store: Store, c: Challenge, put: int, at: int)
    requires c.InSpec()
    requires store.Redis? ==> FromDict(ToDict(c)) == Ok(c) && at < c.expiresAt + TTL_GRACE
    ensures store.With(c, put).Popped(c.nonce, at) == Ok(Some(c))
  {
  }

  lemma SparedStays(x: Crypto, rpId: Bytes, s: State, step: Step, c: Challenge, at: int)
    requires Available(s, c, at) && Spares(s, step, c)
    ensures Available(Next(x, rpId, s, step), c, at)
  {
    match step
    case ChallengePut(_, _, nonce, _) => KeyInjective(nonce, c.nonce);
    case RedeemPop(h, _) =>
      if h in s.handlers && s.handlers[h].Redeeming? && ParseToken(s.handlers[h].wire).Ok? {
        KeyInjective(ParseToken(s.handlers[h].wire).value.nonce, c.nonce);
      }
    case _ =>
  }

  /** A handler that has taken a challenge holds it until it decides. */
  lemma DecidingStays(x: Crypto, rpId: Bytes, s: State, step: Step, h: nat)
    requires h in s.handlers && s.handlers[h].Deciding? && !(step.RedeemVerify? && step.handler == h)
    ensures var next := Next(x, rpId, s, step);
      h in next.handlers && next.handlers[h] == s.handlers[h]
  {
  }

  // ---------------------------------------------------------------- one redemption inside a run

  /** Where in a run a challenge is stored, taken by a redemption, and decided; the redeeming handler with
      its clock value, the shared server's clock at the taking, and the keyset it verifies with. */
  datatype Visit = Visit(put: nat, pop: nat, verify: nat, h: nat, now: int, at: int, trusted: seq<ScopeKeyRecord>)

  function Before(x: Crypto, rpId: Bytes, start: Store, steps: seq<Step>, k: nat): State
    requires k <= |steps|
  {
    RelyingPartyRuns.Run(x, rpId, start, steps[..k])
  }

  lemma OneStep(x: Crypto, rpId: Bytes, start: Store, steps: seq<Step>, k: nat)
    requires k < |steps|
    ensures Before(x, rpId, start, steps, k + 1) == Next(x, rpId, Before(x, rpId, start, steps, k), steps[k])
  {
    assert steps[..k + 1][..k] == steps[..k];
  }

  /** The handler decides at `verify` and not before. */
  ghost predicate Decides(steps: seq<Step>, v: Visit) {
    && v.pop < v.verify < |steps| && steps[v.verify] == RedeemVerify(v.h, v.trusted)
    && forall k :: v.pop < k < v.verify ==> !(steps[k].RedeemVerify? && steps[k].handler == v.h)
  }

  /** The challenge is issued at `put`, pending until the handler takes it at `pop`, before the shared
      server forgets it, and decided at `verify`; anything else may happen at any point. */
  ghost predicate Unhindered(x: Crypto, rpId: Bytes, start: Store, steps: seq<Step>, v: Visit, c: Challenge,
                             wire: Bytes)
  {
    && v.put < v.pop && Decides(steps, v)
    && Before(x, rpId, start, steps, v.put + 1).issued == Before(x, rpId, start, steps, v.put).issued + [c]
    && (Before(x, rpId, start, steps, v.put).store.Redis? ==>
        FromDict(ToDict(c)) == Ok(c) && v.at < c.expiresAt + TTL_GRACE)
    && (forall k :: v.put < k < v.pop ==> Spares(Before(x, rpId, start, steps, k), steps[k], c))
    && steps[v.pop] == RedeemPop(v.h, v.at)
    && v.h in Before(x, rpId, start, steps, v.pop).handlers
    && Before(x, rpId, start, steps, v.pop).handlers[v.h] == Redeeming(wire, v.now)
  }

  /** The step that issues a challenge stores it. */
  lemma IssuedAvailable(x: Crypto, rpId: Bytes, s: State, step: Step, c: Challenge, at: int)
    requires Next(x, rpId, s, step).issued == s.issued + [c]
    requires s.store.Redis? ==> FromDict(ToDict(c)) == Ok(c) && at < c.expiresAt + TTL_GRACE
    ensures Available(Next(x, rpId, s, step), c, at)
  {
    var h := step.handler;
    assert step.ChallengePut? && h in s.handlers && s.handlers[h].Making?;
    var made := MakeChallenge(rpId, s.handlers[h].scope, s.handlers[h].now, DEFAULT_CHALLENGE_TTL, step.logHead,
                              step.nonce);
    assert made == Ok((s.issued + [c])[|s.issued|]);
    PutAvailable(s.store, c, step.at, at);
  }

  lemma PopHolds(s: State, h: nat, wire: Bytes, now: int, at: int, c: Challenge)
    requires h in s.handlers && s.handlers[h] == Redeeming(wire, now) && Available(s, c, at)
    requires ParseToken(wire).Ok? && ParseToken(wire).value.nonce == c.nonce
    ensures Holding(AfterRedeemPop(s, h, at), h, wire, now, c)
  {
  }

  lemma {:induction false} AvailableUntil(x: Crypto, rpId: Bytes, start: Store, steps: seq<Step>, from: nat, k: nat,
                                          c: Challenge, at: int)
    requires from <= k <= |steps| && Available(Before(x, rpId, start, steps, from), c, at)
    requires forall m :: from <= m < k ==> Spares(Before(x, rpId, start, steps, m), steps[m], c)
    ensures Available(Before(x, rpId, start, steps, k), c, at)
  {
    if from < k {
      AvailableUntil(x, rpId, start, steps, from, k - 1, c, at);
      SparedStays(x, rpId, Before(x, rpId, start, steps, k - 1), steps[k - 1], c, at);
      OneStep(x, rpId, start, steps, k - 1);
    }
  }

  /** The handler is about to decide on this challenge. */
  predicate Holding(s: State, h: nat, wire: Bytes, now: int, c: Challenge) {
    h in s.handlers && s.handlers[h] == Deciding(wire, now, Ok(Some(c)))
  }

  lemma {:induction false} HeldUntil(x: Crypto, rpId: Bytes, start: Store, steps: seq<Step>, from: nat, k: nat,
                                     h: nat, wire: Bytes, now: int, c: Challenge)
    requires from <= k <= |steps| && Holding(Before(x, rpId, start, steps, from), h, wire, now, c)
    requires forall m :: from <= m < k ==> !(steps[m].RedeemVerify? && steps[m].handler == h)
    ensures Holding(Before(x, rpId, start, steps, k), h, wire, now, c)
  {
    if from < k {
      HeldUntil(x, rpId, start, steps, from, k - 1, h, wire, now, c);
      DecidingStays(x, rpId, Before(x, rpId, start, steps, k - 1), steps[k - 1], h);
      OneStep(x, rpId, start, steps, k - 1);
    }
  }

  lemma TakesAvailable(x: Crypto, rpId: Bytes, start: Store, steps: seq<Step>, v: Visit, c: Challenge, wire: Bytes)
    requires v.pop < |steps| && steps[v.pop] == RedeemPop(v.h, v.at)
    requires Available(Before(x, rpId, start, steps, v.pop), c, v.at)
    requires var s := Before(x, rpId, start, steps, v.pop);
      v.h in s.handlers && s.handlers[v.h] == Redeeming(wire, v.now)
    requires ParseToken(wire).Ok? && ParseToken(wire).value.nonce == c.nonce
    ensures Holding(Before(x, rpId, start, steps, v.pop + 1), v.h, wire, v.now, c)
  {
    OneStep(x, rpId, start, steps, v.pop);
    PopHolds(Before(x, rpId, start, steps, v.pop), v.h, wire, v.now, v.at, c);
  }

  /** The redeeming handler takes the challenge that was issued. */
  lemma TakesIssued(x: Crypto, rpId: Bytes, start: Store, steps: seq<Step>, v: Visit, c: Challenge, wire: Bytes)
    requires Unhindered(x, rpId, start, steps, v, c, wire)
    requires ParseToken(wire).Ok? && ParseToken(wire).value.nonce == c.nonce
    ensures Holding(Before(x, rpId, start, steps, v.pop + 1), v.h, wire, v.now, c)
  {
    OneStep(x, rpId, start, steps, v.put);
    IssuedAvailable(x, rpId, Before(x, rpId, start, steps, v.put), steps[v.put], c, v.at);
    AvailableUntil(x, rpId, start, steps, v.put + 1, v.pop, c, v.at);
    TakesAvailable(x, rpId, start, steps, v, c, wire);
  }

  lemma VerifyAnswers(x: Crypto, s: State, h: nat, trusted: seq<ScopeKeyRecord>, wire: Bytes, now: int, c: Challenge)
    requires Holding(s, h, wire, now, c)
    ensures AfterRedeemVerify(x, s, h, trusted).answers == s.answers + [Decided(x, wire, now, Ok(Some(c)), trusted)]
  {
  }

  /** The answer to a redemption is the last of the answers. */
  ghost predicate AnsweredLast(x: Crypto, rpId: Bytes, start: Store, steps: seq<Step>, v: Visit, a: Answer)
    requires v.verify < |steps|
  {
    Before(x, rpId, start, steps, v.verify + 1).answers == Before(x, rpId, start, steps, v.verify).answers + [a]
  }

  lemma HolderDecides(x: Crypto, rpId: Bytes, start: Store, steps: seq<Step>, v: Visit, c: Challenge, wire: Bytes)
    requires Decides(steps, v) && Holding(Before(x, rpId, start, steps, v.pop + 1), v.h, wire, v.now, c)
    ensures AnsweredLast(x, rpId, start, steps, v, Decided(x, wire, v.now, Ok(Some(c)), v.trusted))
  {
    HeldUntil(x, rpId, start, steps, v.pop + 1, v.verify, v.h, wire, v.now, c);
    VerifyAnswers(x, Before(x, rpId, start, steps, v.verify), v.h, v.trusted, wire, v.now, c);
    OneStep(x, rpId, start, steps, v.verify);
  }

  /** A redemption that nothing hinders is answered by what verification says of its token and the issued
      challenge, on every interleaving and over either store. */
  lemma RedemptionDecided(x: Crypto, rpId: Bytes, start: Store, steps: seq<Step>, v: Visit, c: Challenge, wire: Bytes)
    requires Unhindered(x, rpId, start, steps, v, c, wire)
    requires ParseToken(wire).Ok? && ParseToken(wire).value.nonce == c.nonce
    ensures AnsweredLast(x, rpId, start, steps, v, Decided(x, wire, v.now, Ok(Some(c)), v.trusted))
  {
    TakesIssued(x, rpId, start, steps, v, c, wire);
    HolderDecides(x, rpId, start, steps, v, c, wire);
  }

  // ---------------------------------------------------------------- from the issuer's answer to the redemption

  /** What the user agent sends for a challenge under the record of its own view of the log, if it gets
      that far. */
  ghost function Sent(x: Crypto, own: ScopeKeyRecord, c: Challenge, d: Draws): Option<EndToEnd.Pending> {
    var pk := own.Key(x.codec);
    if pk.None? || pk.value.n <= 1 || !d.FitUser(pk.value.n) then None
    else EndToEnd.Request(x, pk.value, own.keyId, c, d.prefix, d.salt, d.r)
  }

  /** The request asks for what the user agent has sent, under a record with the key id that the handler signs
      under. */
  ghost predicate AsksFor(x: Crypto, i: Issuer.Case, r: LogRecord, key: PrivateKey, own: ScopeKeyRecord, c: Challenge,
                          d: Draws)
    requires key.N() > 1 && d.Fit(key.N())
  {
    var sent := Sent(x, own, c, d);
    && sent.Some? && i.req.fields.scope == c.scope && i.req.fields.blindedMsg == sent.value.blinded
    && own.keyId == r.body.keyId && i.signer == Ok((r, key))
    && i.sig == Rsabssa.SignWith(key, i.req.fields.blindedMsg, d.z)
  }

  /** The request passes the issuer's checks up to the limiter. */
  predicate Authorised(i: Issuer.Case)
    requires i.Valid()
  {
    forall k :: 0 <= k < 7 ==> Issuer.Passes(i, k)
  }

  /** Two different encodings of a key with one identifier. */
  predicate EncodingsCollide(sha: Hash, a: ScopeKeyRecord, b: ScopeKeyRecord) {
    a.spki != b.spki && sha(a.spki) == sha(b.spki)
  }

  /** The user agent's record, from whatever view of the log, holds the issuer's key. */
  lemma OwnKeyIsSigners(x: Crypto, i: Issuer.Case, r: LogRecord, key: PrivateKey, own: ScopeKeyRecord, c: Challenge,
                        d: Draws)
    requires key.N() > 1 && d.Fit(key.N()) && ToScopeKeyRecord(r).Key(x.codec) == Some(key.Public())
    requires AsksFor(x, i, r, key, own, c, d) && !EncodingsCollide(x.codec.sha, own, ToScopeKeyRecord(r))
    ensures own.Key(x.codec) == Some(key.Public())
    ensures Sent(x, own, c, d) == EndToEnd.Request(x, key.Public(), r.body.keyId, c, d.prefix, d.salt, d.r)
  {
    KeyIdBindsKey(x.codec, own, ToScopeKeyRecord(r));
  }

  /** The signer signs what the user agent has sent, and what comes out is the token of the exchange. */
  lemma SentYieldsToken(x: Crypto, r: LogRecord, key: PrivateKey, c: Challenge, d: Draws)
    requires PolicyKey(x.codec, key) && d.Fit(key.N()) && |r.body.keyId| == KEY_ID_LEN
    requires EndToEnd.Request(x, key.Public(), r.body.keyId, c, d.prefix, d.salt, d.r).Some?
    ensures var wire := Obtained(x, key, r.body.keyId, c, d);
      var request := EndToEnd.Request(x, key.Public(), r.body.keyId, c, d.prefix, d.salt, d.r).value;
      var reply := Rsabssa.SignWith(key, request.blinded, d.z);
      && reply.Ok? && wire.Some? && EndToEnd.Receive(x, key.Public(), request, reply.value) == wire
      && ParseToken(wire.value).Ok? && ParseToken(wire.value).value.nonce == c.nonce
  {
    EndToEnd.RequestParts(x, key.Public(), r.body.keyId, c, d.prefix, d.salt, d.r);
    EndToEnd.HonestChain(x, key, r.body.keyId, c, d.prefix, d.salt, d.r, d.z);
    var request := EndToEnd.Request(x, key.Public(), r.body.keyId, c, d.prefix, d.salt, d.r).value;
    EndToEnd.ReceivedFields(x, key.Public(), r.body.keyId, c, d.prefix, d.salt, d.r,
                            Rsabssa.SignWith(key, request.blinded, d.z).value);
  }

  /** With a signer and a signature at hand, the issuer answers exactly the authorised requests, and with them. */
  lemma AuthorisedAnswered(i: Issuer.Case)
    requires i.Valid() && i.signer.Ok? && i.sig.Ok?
    ensures var answer, body := i.Outcome().0, i.signer.value.0.body;
      && (answer.Ok? <==> Authorised(i))
      && (answer.Ok? ==> answer.value == Issuer.IssueResponse(i.sig.value, body.keyId, body.scope, body.epoch))
  {
    Issuer.IssuedExact(i);
    assert Issuer.Passes(i, 7) && Issuer.Passes(i, 8);
  }

  /** What the redemption makes of the token under the keyset file. */
  lemma FileDecides(x: Crypto, from: int, ops: seq<Federation.Op>, t: int, r: LogRecord, key: PrivateKey, c: Challenge,
                    d: Draws, now: int)
    requires LifecycleRuns.History(x.codec, from, ops) && Lifecycle.LastClock(from, ops) <= t
    requires Signs(x.codec, Lifecycle.Run(x.codec, Federation.EMPTY_DISK, ops), c.scope, t, r, key) && d.Fit(key.N())
    requires InTime(r, c, now)
    requires EndToEnd.Request(x, key.Public(), r.body.keyId, c, d.prefix, d.salt, d.r).Some?
    ensures |r.body.keyId| == KEY_ID_LEN
    ensures var disk, wire := Lifecycle.Run(x.codec, Federation.EMPTY_DISK, ops), Obtained(x, key, r.body.keyId, c, d);
      && wire.Some?
      && Decided(x, wire.value, now, Ok(Some(c)), PublicFiles.PinnedKeys(disk))
         == if PublicFiles.Serves(disk, PublicFiles.Torn(x.codec, ops), c.scope) then Verified(Some(c.scope))
            else InvalidOrUnknown
  {
    LifecycleRuns.ReachableInv(x.codec, from, ops);
    var disk := Lifecycle.Run(x.codec, Federation.EMPTY_DISK, ops);
    var i := SignerRecord(x.codec, disk, Lifecycle.LastClock(from, ops), c.scope, t, r, key);
    FileTrustExact(x, from, ops, t, r, key, c, d, now);
  }

  /** Issued is redeemed. The issuer, on a state directory that any run of the key lifecycle has left, answers a
      request that the user agent has made under its own view of the log if and only if the request passes
      its checks. Then the user agent finalises, and a redemption that is not hindered, that reads the clock
      while challenge and key can be used, and that verifies with the keyset file of that directory, is
      answered with the challenged scope if the file serves the scope, and refused if not. All this unless
      two key encodings collide. */
  lemma IssuedIsRedeemed(x: Crypto, from: int, ops: seq<Federation.Op>, i: Issuer.Case, r: LogRecord, key: PrivateKey,
                         own: ScopeKeyRecord, c: Challenge, d: Draws,
                         rpId: Bytes, start: Store, steps: seq<Step>, v: Visit)
    requires LifecycleRuns.History(x.codec, from, ops) && Lifecycle.LastClock(from, ops) <= i.now
    requires Signs(x.codec, Lifecycle.Run(x.codec, Federation.EMPTY_DISK, ops), c.scope, i.now, r, key)
    requires i.Valid() && d.Fit(key.N()) && AsksFor(x, i, r, key, own, c, d)
    requires InTime(r, c, v.now) && !EncodingsCollide(x.codec.sha, own, ToScopeKeyRecord(r))
    requires v.trusted == PublicFiles.PinnedKeys(Lifecycle.Run(x.codec, Federation.EMPTY_DISK, ops))
    ensures i.Outcome().0.Ok? <==> Authorised(i)
    ensures i.Outcome().0.Ok? ==>
      var disk, resp := Lifecycle.Run(x.codec, Federation.EMPTY_DISK, ops), i.Outcome().0.value;
      var wire := EndToEnd.Receive(x, own.Key(x.codec).value, Sent(x, own, c, d).value, resp.blindSig);
      && resp.keyId == own.keyId && resp.scope == c.scope && wire.Some?
      && (Unhindered(x, rpId, start, steps, v, c, wire.value) ==>
            AnsweredLast(x, rpId, start, steps, v,
                         if PublicFiles.Serves(disk, PublicFiles.Torn(x.codec, ops), c.scope)
                         then Verified(Some(c.scope)) else InvalidOrUnknown))
  {
    var disk := Lifecycle.Run(x.codec, Federation.EMPTY_DISK, ops);
    LifecycleRuns.ReachableInv(x.codec, from, ops);
    var k := SignerRecord(x.codec, disk, Lifecycle.LastClock(from, ops), c.scope, i.now, r, key);
    OwnKeyIsSigners(x, i, r, key, own, c, d);
    SentYieldsToken(x, r, key, c, d);
    AuthorisedAnswered(i);
    FileDecides(x, from, ops, i.now, r, key, c, d, v.now);
    var wire := Obtained(x, key, r.body.keyId, c, d).value;
    if Unhindered(x, rpId, start, steps, v, c, wire) {
      RedemptionDecided(x, rpId, start, steps, v, c, wire);
    }
  }
}
