/** Offline token verification: the ordered checks, and exactly which tokens they let through. */
module Verifier {
  import opened Wrappers
  import opened Bytes
  import opened Rsa
  import opened TransLog
  import opened Keys
  import opened Token
  import Rsabssa
  import Pss

  datatype Decision =
    | OK
    | Malformed
    | WrongScope
    | UnknownKey
    | KeyScopeMismatch
    | KeyNotValid
    | ChallengeMismatch
    | Expired
    | ExpiryTooFar
    | BadKey
    | BadSignatureLength
    | BadSignature

  datatype Verdict = Verdict(decision: Decision, scope: Option<int>)

  function Reject(d: Decision): Result<Verdict, FormatError> {
    Ok(Verdict(d, None))
  }

  /** The foreign code: SHA-256 with the key decoder, and SHA-384. */
  datatype Crypto = Crypto(codec: KeyCodec, sha384: Bytes -> Digest48)

  /** Record `i` has this key id and none before it does. */
  predicate FirstWith(trusted: seq<ScopeKeyRecord>, keyId: Bytes, i: int) {
    0 <= i < |trusted| && trusted[i].keyId == keyId && forall j :: 0 <= j < i ==> trusted[j].keyId != keyId
  }

  /** The first trusted record with this key id. */
  function RecordFor(trusted: seq<ScopeKeyRecord>, keyId: Bytes): (r: Option<ScopeKeyRecord>)
    ensures r.Some? ==> exists i :: FirstWith(trusted, keyId, i) && trusted[i] == r.value
    ensures r.None? ==> forall k :: k in trusted ==> k.keyId != keyId
  {
    if trusted == [] then None
    else if trusted[0].keyId == keyId then
      assert FirstWith(trusted, keyId, 0);
      Some(trusted[0])
    else
      var r := RecordFor(trusted[1..], keyId);
      assert r.Some? ==> exists i :: FirstWith(trusted, keyId, i) && trusted[i] == r.value by {
        if r.Some? {
          var i :| FirstWith(trusted[1..], keyId, i) && trusted[1..][i] == r.value;
          assert FirstWith(trusted, keyId, i + 1);
        }
      }
      r
  }

  /** A policy-conforming key is large enough for the signature equations to make sense. */
  lemma AdmittedKey(c: KeyCodec, r: ScopeKeyRecord)
    requires r.Key(c).Some?
    ensures r.Key(c).value.n > 1
  {
    assert BitLen(0) == 0 && BitLen(1) == 1;
  }

  /** `verify_token`. An expected challenge outside its specification makes the digest comparison raise. */
  function VerifyToken(x: Crypto, wire: Bytes, trusted: seq<ScopeKeyRecord>, expected: Challenge, now: int)
    : Result<Verdict, FormatError>
  {
    var parsed := ParseToken(wire);
    if parsed.Err? then Reject(Malformed)
    else
      var f := parsed.value;
      if f.scopeId != expected.scope then Reject(WrongScope)
      else
        var record := RecordFor(trusted, f.keyId);
        if record.None? then Reject(UnknownKey)
        else if record.value.scope != f.scopeId then Reject(KeyScopeMismatch)
        else if record.value.status != Active || !(record.value.notBefore <= now <= record.value.notAfter)
        then Reject(KeyNotValid)
        else if f.nonce != expected.nonce || f.expiry != expected.expiresAt then Reject(ChallengeMismatch)
        else if expected.Digest(x.codec.sha).Err? then Err(ChallengeFormatError)
        else if Ok(f.challengeDigest) != expected.Digest(x.codec.sha) then Reject(ChallengeMismatch)
        else CheckSignature(x, f, record.value, now)
  }

  /** The checks after the challenge binding: freshness, key policy, and the signature last. */
  function CheckSignature(x: Crypto, f: TokenFields, record: ScopeKeyRecord, now: int): Result<Verdict, FormatError> {
    if f.expiry <= now then Reject(Expired)
    else if f.expiry - now > MAX_TOKEN_LIFETIME then Reject(ExpiryTooFar)
    else
      var key := record.Key(x.codec);
      if key.None? then Reject(BadKey)
      else
        AdmittedKey(x.codec, record);
        if |f.signature| != Rsabssa.ModulusLen(key.value.n) then Reject(BadSignatureLength)
        else if !Rsabssa.Verify(x.sha384, key.value, f.preparedMsg, f.signature, Rsabssa.DEFAULT_VARIANT)
        then Reject(BadSignature)
        else Ok(Verdict(OK, Some(f.scopeId)))
  }

  predicate Accepted(x: Crypto, wire: Bytes, trusted: seq<ScopeKeyRecord>, expected: Challenge, now: int) {
    var v := VerifyToken(x, wire, trusted, expected, now);
    v.Ok? && v.value.decision == OK
  }

  /** A scope is reported exactly with the decision OK, and it is the challenged one; no valid
      challenge makes verification raise. */
  lemma ScopeOnlyWhenOk(x: Crypto, wire: Bytes, trusted: seq<ScopeKeyRecord>, expected: Challenge, now: int)
    ensures var v := VerifyToken(x, wire, trusted, expected, now);
      && (expected.InSpec() ==> v.Ok?)
      && (v.Ok? ==> v.value.scope == if v.value.decision == OK then Some(expected.scope) else None)
  {
  }

  /** The checks in the order in which they are made, each with its decision. */
  const STAGES :=
    [Malformed, WrongScope, UnknownKey, KeyScopeMismatch, KeyNotValid, ChallengeMismatch, Expired, ExpiryTooFar, BadKey,
     BadSignatureLength, BadSignature]

  /** What stage `k` asks of a parsed token and the record found for its key id. */
  predicate PassesStage(x: Crypto, f: TokenFields, record: Option<ScopeKeyRecord>, expected: Challenge, now: int,
                        k: int)
  {
    if k == 1 then f.scopeId == expected.scope
    else if k == 2 then record.Some?
    else if k == 3 then record.Some? && record.value.scope == expected.scope
    else if k == 4 then
      record.Some? && record.value.status == Active && record.value.notBefore <= now <= record.value.notAfter
    else if k == 5 then
      && f.nonce == expected.nonce && f.expiry == expected.expiresAt
      && Ok(f.challengeDigest) == expected.Digest(x.codec.sha)
    else if k == 6 then now < expected.expiresAt
    else if k == 7 then expected.expiresAt - now <= MAX_TOKEN_LIFETIME
    else if k == 8 then record.Some? && record.value.Key(x.codec).Some?
    else if k == 9 then
      && record.Some? && record.value.Key(x.codec).Some?
      && |f.signature| == Rsabssa.ModulusLen(record.value.Key(x.codec).value.n)
    else if k == 10 then
      record.Some? && record.value.Key(x.codec).Some?
      && (AdmittedKey(x.codec, record.value);
          Rsabssa.Verify(x.sha384, record.value.Key(x.codec).value, f.preparedMsg, f.signature,
                         Rsabssa.DEFAULT_VARIANT))
    else true
  }

  /** Stage `k` of the verification of a wire; the first stage is that it parses. */
  predicate Passes(x: Crypto, wire: Bytes, trusted: seq<ScopeKeyRecord>, expected: Challenge, now: int, k: int) {
    var parsed := ParseToken(wire);
    parsed.Ok? && PassesStage(x, parsed.value, RecordFor(trusted, parsed.value.keyId), expected, now, k)
  }

  predicate PassesBefore(x: Crypto, wire: Bytes, trusted: seq<ScopeKeyRecord>, expected: Challenge, now: int, k: int) {
    forall i :: 0 <= i < k ==> Passes(x, wire, trusted, expected, now, i)
  }

  /** A token that passes the structural checks is decided by the remaining ones. */
  lemma StructurePasses(x: Crypto, wire: Bytes, trusted: seq<ScopeKeyRecord>, expected: Challenge, now: int)
    requires expected.InSpec() && PassesBefore(x, wire, trusted, expected, now, 6)
    ensures ParseToken(wire).Ok?
    ensures var f := ParseToken(wire).value;
      && RecordFor(trusted, f.keyId).Some? && f.expiry == expected.expiresAt
      && VerifyToken(x, wire, trusted, expected, now) == CheckSignature(x, f, RecordFor(trusted, f.keyId).value, now)
  {
    assert Passes(x, wire, trusted, expected, now, 0) && Passes(x, wire, trusted, expected, now, 1);
    assert Passes(x, wire, trusted, expected, now, 2) && Passes(x, wire, trusted, expected, now, 3);
    assert Passes(x, wire, trusted, expected, now, 4) && Passes(x, wire, trusted, expected, now, 5);
  }

  lemma StructureDecides(x: Crypto, wire: Bytes, trusted: seq<ScopeKeyRecord>, expected: Challenge, now: int, k: int)
    requires expected.InSpec() && 0 <= k < 6 && PassesBefore(x, wire, trusted, expected, now, k)
    requires !Passes(x, wire, trusted, expected, now, k)
    ensures VerifyToken(x, wire, trusted, expected, now) == Reject(STAGES[k])
  {
    assert k > 0 ==> Passes(x, wire, trusted, expected, now, 0);
    assert k > 1 ==> Passes(x, wire, trusted, expected, now, 1);
    assert k > 2 ==> Passes(x, wire, trusted, expected, now, 2);
    assert k > 3 ==> Passes(x, wire, trusted, expected, now, 3);
    assert k > 4 ==> Passes(x, wire, trusted, expected, now, 4);
  }

  lemma SignatureDecides(x: Crypto, wire: Bytes, trusted: seq<ScopeKeyRecord>, expected: Challenge, now: int, k: int)
    requires expected.InSpec() && 6 <= k < |STAGES| && PassesBefore(x, wire, trusted, expected, now, k)
    requires !Passes(x, wire, trusted, expected, now, k)
    ensures VerifyToken(x, wire, trusted, expected, now) == Reject(STAGES[k])
  {
    StructurePasses(x, wire, trusted, expected, now);
    assert k > 6 ==> Passes(x, wire, trusted, expected, now, 6);
    assert k > 7 ==> Passes(x, wire, trusted, expected, now, 7);
    assert k > 8 ==> Passes(x, wire, trusted, expected, now, 8);
    assert k > 9 ==> Passes(x, wire, trusted, expected, now, 9);
  }

  /** The first check that fails decides: cheap structural checks come before any cryptography, and
      every decision means what its name says. */
  lemma FirstFailureDecides(x: Crypto, wire: Bytes, trusted: seq<ScopeKeyRecord>, expected: Challenge, now: int, k: int)
    requires expected.InSpec() && 0 <= k < |STAGES| && PassesBefore(x, wire, trusted, expected, now, k)
    requires !Passes(x, wire, trusted, expected, now, k)
    ensures VerifyToken(x, wire, trusted, expected, now) == Reject(STAGES[k])
  {
    if k < 6 {
      StructureDecides(x, wire, trusted, expected, now, k);
    } else {
      SignatureDecides(x, wire, trusted, expected, now, k);
    }
  }

  /** A token that passes every check is accepted with the challenged scope. */
  lemma NoFailureAccepts(x: Crypto, wire: Bytes, trusted: seq<ScopeKeyRecord>, expected: Challenge, now: int)
    requires expected.InSpec() && PassesBefore(x, wire, trusted, expected, now, |STAGES|)
    ensures VerifyToken(x, wire, trusted, expected, now) == Ok(Verdict(OK, Some(expected.scope)))
  {
    StructurePasses(x, wire, trusted, expected, now);
    assert Passes(x, wire, trusted, expected, now, 1) && Passes(x, wire, trusted, expected, now, 6);
    assert Passes(x, wire, trusted, expected, now, 7) && Passes(x, wire, trusted, expected, now, 8);
    assert Passes(x, wire, trusted, expected, now, 9) && Passes(x, wire, trusted, expected, now, 10);
  }

  /** One token answers one challenge: accepted for two challenges, by whatever keysets and at whatever
      times, it proves them equal in relying party, scope, nonce and expiry, or exhibits a collision. */
  lemma TokenBindsChallenge(x: Crypto, wire: Bytes, trusted: seq<ScopeKeyRecord>, a: Challenge, now: int,
                            trusted': seq<ScopeKeyRecord>, b: Challenge, now': int)
    requires Accepted(x, wire, trusted, a, now) && Accepted(x, wire, trusted', b, now')
    ensures a.SameBinding(b) || PayloadsCollide(x.codec.sha, a, b)
  {
    DigestBinds(x.codec.sha, a, b);
  }

  lemma AcceptedChecked(x: Crypto, wire: Bytes, trusted: seq<ScopeKeyRecord>, expected: Challenge, now: int)
    requires Accepted(x, wire, trusted, expected, now)
    ensures ParseToken(wire).Ok? && RecordFor(trusted, ParseToken(wire).value.keyId).Some?
    ensures var f := ParseToken(wire).value;
      CheckSignature(x, f, RecordFor(trusted, f.keyId).value, now) == Ok(Verdict(OK, Some(f.scopeId)))
  {
  }

  /** What stands behind an accepted token: a signature on its prepared message, under the key of its record. */
  lemma AcceptedVerifies(x: Crypto, wire: Bytes, trusted: seq<ScopeKeyRecord>, expected: Challenge, now: int)
    requires Accepted(x, wire, trusted, expected, now)
    ensures var f := ParseToken(wire).value;
      var pk := RecordFor(trusted, f.keyId).value.Key(x.codec);
      && wire == f.preparedMsg + f.signature && pk.Some? && pk.value.n > 1
      && Rsabssa.Verify(x.sha384, pk.value, f.preparedMsg, f.signature, Rsabssa.DEFAULT_VARIANT)
  {
    AcceptedChecked(x, wire, trusted, expected, now);
    ParseThenEncode(wire);
    AdmittedKey(x.codec, RecordFor(trusted, ParseToken(wire).value.keyId).value);
  }

  /** One signature, one token: two tokens accepted under one key, by whatever keysets, for whatever challenges
      and at whatever times, do not share their signature, unless two hash inputs collide. */
  lemma SignatureBindsToken(x: Crypto, wire: Bytes, trusted: seq<ScopeKeyRecord>, a: Challenge, now: int,
                            wire': Bytes, trusted': seq<ScopeKeyRecord>, b: Challenge, now': int)
    returns (salt: Bytes)
    requires Accepted(x, wire, trusted, a, now) && Accepted(x, wire', trusted', b, now')
    requires var f, f' := ParseToken(wire).value, ParseToken(wire').value;
      && f.signature == f'.signature
      && RecordFor(trusted, f.keyId).value.Key(x.codec) == RecordFor(trusted', f'.keyId).value.Key(x.codec)
    ensures || (wire == wire' && (a.SameBinding(b) || PayloadsCollide(x.codec.sha, a, b)))
            || Pss.MessagesCollide(x.sha384, ParseToken(wire).value.preparedMsg, ParseToken(wire').value.preparedMsg,
                                   salt)
  {
    AcceptedVerifies(x, wire, trusted, a, now);
    AcceptedVerifies(x, wire', trusted', b, now');
    var f, f' := ParseToken(wire).value, ParseToken(wire').value;
    var pk := RecordFor(trusted, f.keyId).value.Key(x.codec).value;
    salt := Rsabssa.SignatureBinds(x.sha384, pk, f.preparedMsg, f'.preparedMsg, f.signature, Rsabssa.DEFAULT_VARIANT);
    if f.preparedMsg == f'.preparedMsg { TokenBindsChallenge(x, wire, trusted, a, now, trusted', b, now'); }
  }

  /** The clock values at which a record and a challenge can be used together. */
  predicate InWindow(record: ScopeKeyRecord, expected: Challenge, now: int) {
    && record.notBefore <= now <= record.notAfter
    && expected.expiresAt - MAX_TOKEN_LIFETIME <= now < expected.expiresAt
  }

  /** Time enters through one interval only: a token accepted once is accepted at exactly the clock
      values inside the key's validity and the last 600 seconds before the challenge expires. */
  lemma AcceptanceWindow(x: Crypto, wire: Bytes, trusted: seq<ScopeKeyRecord>, expected: Challenge, now: int,
                         later: int)
    requires Accepted(x, wire, trusted, expected, now)
    ensures var record := RecordFor(trusted, ParseToken(wire).value.keyId).value;
      && InWindow(record, expected, now)
      && (Accepted(x, wire, trusted, expected, later) <==> InWindow(record, expected, later))
  {
  }

  /** A wire with the fields of this challenge, under a record that can be used, is accepted when its
      signature verifies. */
  lemma FieldsAccepted(x: Crypto, wire: Bytes, trusted: seq<ScopeKeyRecord>, record: ScopeKeyRecord,
                       expected: Challenge, now: int, prepared: Bytes, signature: Bytes)
    requires expected.InSpec() && RecordFor(trusted, record.keyId) == Some(record)
    requires record.scope == expected.scope && record.status == Active && InWindow(record, expected, now)
    requires ParseToken(wire)
        == Ok(TokenFields(expected.scope, record.keyId, x.codec.sha(expected.Payload()), expected.nonce,
                                                expected.expiresAt, prepared, signature))
    requires record.Key(x.codec).Some? && record.Key(x.codec).value.n > 1
    requires Rsabssa.Verify(x.sha384, record.Key(x.codec).value, prepared, signature, Rsabssa.DEFAULT_VARIANT)
    ensures VerifyToken(x, wire, trusted, expected, now) == Ok(Verdict(OK, Some(expected.scope)))
  {
  }

  // ---------------------------------------------------------------- exactly the honest tokens

  /** The wire is a prefix, the message that answers the challenge under this key, and the root of
      that prepared message's encoding with this salt: what an honest run produces. */
  ghost predicate HonestWire(x: Crypto, key: PrivateKey, keyId: Bytes, expected: Challenge, wire: Bytes, salt: Bytes)
    requires key.N() > 1
  {
    && |wire| > 154 && |salt| == 48
    && TokenMsgForChallenge(x.codec.sha, expected, keyId) == Ok(wire[..154][32..])
    && Rsabssa.IsSignature(x.sha384, key, wire[..154], salt, wire[154..])
  }

  /** A usable record: it holds this key's public half, for the challenged scope, active and in window. */
  ghost predicate Usable(x: Crypto, record: ScopeKeyRecord, key: PrivateKey, expected: Challenge, now: int) {
    && key.Valid() && key.N() > 1 && record.Key(x.codec) == Some(key.Public())
    && record.scope == expected.scope && record.status == Active && InWindow(record, expected, now)
  }

  lemma HonestParses(x: Crypto, key: PrivateKey, keyId: Bytes, expected: Challenge, wire: Bytes, salt: Bytes)
    requires key.N() > 1 && HonestWire(x, key, keyId, expected, wire, salt)
    ensures expected.InSpec()
    ensures ParseToken(wire) == Ok(TokenFields(expected.scope, keyId, x.codec.sha(expected.Payload()), expected.nonce,
                                               expected.expiresAt, wire[..PREPARED_LEN], wire[PREPARED_LEN..]))
  {
    var prepared, signature := wire[..PREPARED_LEN], wire[PREPARED_LEN..];
    var digest := x.codec.sha(expected.Payload());
    EncodeThenParse(prepared[..Rsabssa.PREFIX_LEN], expected.scope, keyId, digest, expected.nonce, expected.expiresAt,
                    signature);
    assert prepared == prepared[..Rsabssa.PREFIX_LEN] + prepared[Rsabssa.PREFIX_LEN..];
    assert wire == prepared + signature;
  }

  lemma HonestAccepted(x: Crypto, trusted: seq<ScopeKeyRecord>, record: ScopeKeyRecord, key: PrivateKey,
                       expected: Challenge, wire: Bytes, salt: Bytes, now: int)
    requires RecordFor(trusted, record.keyId) == Some(record) && Usable(x, record, key, expected, now)
    requires HonestWire(x, key, record.keyId, expected, wire, salt)
    ensures VerifyToken(x, wire, trusted, expected, now) == Ok(Verdict(OK, Some(expected.scope)))
  {
    HonestParses(x, key, record.keyId, expected, wire, salt);
    Rsabssa.RootVerifies(x.sha384, key, wire[..PREPARED_LEN], Rsabssa.DEFAULT_VARIANT, salt, wire[PREPARED_LEN..]);
    FieldsAccepted(x, wire, trusted, record, expected, now, wire[..PREPARED_LEN], wire[PREPARED_LEN..]);
  }

  lemma AcceptedHonest(x: Crypto, trusted: seq<ScopeKeyRecord>, record: ScopeKeyRecord, key: PrivateKey,
                       expected: Challenge, wire: Bytes, now: int) returns (salt: Bytes)
    requires key.Valid() && key.N() > 1 && record.Key(x.codec) == Some(key.Public())
    requires RecordFor(trusted, record.keyId) == Some(record)
    requires Accepted(x, wire, trusted, expected, now) && ParseToken(wire).value.keyId == record.keyId
    ensures Usable(x, record, key, expected, now) && HonestWire(x, key, record.keyId, expected, wire, salt)
  {
    var f := ParseToken(wire).value;
    ParseThenEncode(wire);
    salt := Rsabssa.VerifiedIsRoot(x.sha384, key, f.preparedMsg, Rsabssa.DEFAULT_VARIANT, f.signature);
  }

  /** Verification is exact: under a trusted key pair, the tokens it accepts are the ones an honest
      run for this very challenge produces, for some 32-byte prefix and 48-byte salt, and only at
      times when the record is usable. */
  lemma AcceptsExactlyHonest(x: Crypto, trusted: seq<ScopeKeyRecord>, record: ScopeKeyRecord, key: PrivateKey,
                             expected: Challenge, wire: Bytes, now: int)
    requires key.Valid() && key.N() > 1 && record.Key(x.codec) == Some(key.Public())
    requires RecordFor(trusted, record.keyId) == Some(record)
    ensures Accepted(x, wire, trusted, expected, now) && ParseToken(wire).value.keyId == record.keyId
       <==> Usable(x, record, key, expected, now) && exists salt ::
           HonestWire(x, key, record.keyId, expected, wire, salt)
  {
    if Accepted(x, wire, trusted, expected, now) && ParseToken(wire).value.keyId == record.keyId {
      var salt := AcceptedHonest(x, trusted, record, key, expected, wire, now);
    }
    forall salt | Usable(x, record, key, expected, now) && HonestWire(x, key, record.keyId, expected, wire, salt)
      ensures Accepted(x, wire, trusted, expected, now) && ParseToken(wire).value.keyId == record.keyId
    {
      HonestAccepted(x, trusted, record, key, expected, wire, salt, now);
      HonestParses(x, key, record.keyId, expected, wire, salt);
    }
  }
}
