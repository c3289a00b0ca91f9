/** Challenge and token formats, version 1: the challenge digest, the fixed-width token message, and
    the strict parser. */
module Token {
  import opened Wrappers
  import opened Modular
  import opened Bytes
  import opened TransLog
  import Rsabssa

  /** The tag zkage/v1/token and its terminating zero byte. */
  const TOKEN_TAG: Bytes := [122, 107, 97, 103, 101, 47, 118, 49, 47, 116, 111, 107, 101, 110, 0]

  /** The tag zkage/v1/challenge and its terminating zero byte. */
  const CHALLENGE_TAG: Bytes :=
    [122, 107, 97, 103, 101, 47, 118, 49, 47, 99, 104, 97, 108, 108, 101, 110, 103, 101, 0]

  const TOKEN_TYPE_V1 := 1
  const MSG_LEN := 122
  const PREPARED_LEN := Rsabssa.PREFIX_LEN + MSG_LEN
  const NONCE_LEN := 32
  const KEY_ID_LEN := 32
  const DIGEST_LEN := 32
  const MAX_TOKEN_LIFETIME := 600
  const DEFAULT_CHALLENGE_TTL := 300

  datatype FormatError = TokenFormatError | ChallengeFormatError

  // ---------------------------------------------------------------- challenges

  /** A challenge; the identifier of the relying party is given by its UTF-8 bytes. */
  datatype Challenge = Challenge(rpId: Bytes, scope: int, nonce: Bytes, expiresAt: int, logHead: Option<Bytes>) {
    /** What the digest is defined for. */
    predicate InSpec() {
      0 < |rpId| <= 0xFFFF && scope in SCOPES && |nonce| == NONCE_LEN && Unsigned(expiresAt, 8)
    }

    function Payload(): Bytes
      requires InSpec()
    {
      TwoBytes();
      CHALLENGE_TAG + (I2osp(|rpId|, 2) + (rpId + ([scope] + (nonce + I2osp(expiresAt, 8)))))
    }

    function Digest(sha: Hash): Result<Digest32, FormatError> {
      if InSpec() then Ok(sha(Payload())) else Err(ChallengeFormatError)
    }

    /** The fields the digest covers. */
    predicate SameBinding(other: Challenge) {
      rpId == other.rpId && scope == other.scope && nonce == other.nonce && expiresAt == other.expiresAt
    }
  }

  lemma TwoBytes()
    ensures Pow(256, 2) == 0x1_0000
  {
    assert Pow(256, 1) == 256;
  }

  /** Where each field of the canonical challenge lies. */
  lemma ChallengeLayout(c: Challenge)
    requires c.InSpec()
    ensures Pow(256, 2) == 0x1_0000
    ensures var s, k := c.Payload(), 21 + |c.rpId|;
      && |s| == k + 41 && s[..19] == Ascii("zkage/v1/challenge") + [0] && s[19..21] == I2osp(|c.rpId|, 2)
           && s[21..k] == c.rpId
      && s[k] == c.scope && s[k + 1..k + 33] == c.nonce && s[k + 33..] == I2osp(c.expiresAt, 8)
  {
    TwoBytes();
    assert CHALLENGE_TAG == Ascii("zkage/v1/challenge") + [0];
  }

  /** The canonical challenge bytes determine every field they cover, although the identifier of the
      relying party has no fixed length. */
  lemma PayloadInjective(a: Challenge, b: Challenge)
    requires a.InSpec() && b.InSpec()
    ensures a.Payload() == b.Payload() <==> a.SameBinding(b)
  {
    if a.Payload() == b.Payload() {
      TwoBytes();
      var a4, b4 := a.nonce + I2osp(a.expiresAt, 8), b.nonce + I2osp(b.expiresAt, 8);
      var a3, b3 := [a.scope] + a4, [b.scope] + b4;
      SplitConcat(CHALLENGE_TAG, I2osp(|a.rpId|, 2) + (a.rpId + a3), CHALLENGE_TAG, I2osp(|b.rpId|, 2) + (b.rpId + b3));
      SplitConcat(I2osp(|a.rpId|, 2), a.rpId + a3, I2osp(|b.rpId|, 2), b.rpId + b3);
      I2ospInjective(|a.rpId|, |b.rpId|, 2);
      SplitConcat(a.rpId, a3, b.rpId, b3);
      SplitConcat([a.scope], a4, [b.scope], b4);
      assert [a.scope][0] == [b.scope][0];
      SplitConcat(a.nonce, I2osp(a.expiresAt, 8), b.nonce, I2osp(b.expiresAt, 8));
      I2ospInjective(a.expiresAt, b.expiresAt, 8);
    }
  }

  /** Two challenges whose payloads are an explicit hash collision. */
  predicate PayloadsCollide(sha: Hash, a: Challenge, b: Challenge) {
    a.InSpec() && b.InSpec() && a.Payload() != b.Payload() && sha(a.Payload()) == sha(b.Payload())
  }

  /** One digest binds one relying party, scope, nonce and expiry, or a collision is at hand. */
  lemma DigestBinds(sha: Hash, a: Challenge, b: Challenge)
    requires a.Digest(sha).Ok? && a.Digest(sha) == b.Digest(sha)
    ensures a.SameBinding(b) || PayloadsCollide(sha, a, b)
  {
    PayloadInjective(a, b);
  }

  /** `make_challenge` with the nonce it draws; the length of the log head is not looked at. */
  function MakeChallenge(rpId: Bytes, scope: int, now: int, ttl: int, logHead: Option<Bytes>, nonce: Bytes)
    : Result<Challenge, FormatError>
  {
    var c := Challenge(rpId, scope, nonce, now + ttl, logHead);
    if 0 < ttl <= MAX_TOKEN_LIFETIME && c.InSpec() then Ok(c) else Err(ChallengeFormatError)
  }

  /** A challenge is made exactly for a lifetime of one to 600 seconds and fields within the specification, and
      then expires that long after the clock value. */
  lemma MakeExact(rpId: Bytes, scope: int, now: int, ttl: int, logHead: Option<Bytes>, nonce: Bytes)
    ensures var c := Challenge(rpId, scope, nonce, now + ttl, logHead);
      MakeChallenge(rpId, scope, now, ttl, logHead, nonce)
      == if 1 <= ttl <= 600 && 1 <= |rpId| <= 65535 && scope in {13, 16, 18, 21} && |nonce| == 32
            && Unsigned(now + ttl, 8)
         then Ok(c) else Err(ChallengeFormatError)
  {
  }

  /** The dictionary that a challenge is transported and stored as, base64 and JSON undone. */
  datatype ChallengeDict = ChallengeDict(version: int, rpId: Bytes, scope: int, nonce: Bytes, expiresAt: int,
                                         logHead: Option<Bytes>)

  function ToDict(c: Challenge): ChallengeDict {
    ChallengeDict(1, c.rpId, c.scope, c.nonce, c.expiresAt, c.logHead)
  }

  function FromDict(d: ChallengeDict): Result<Challenge, FormatError> {
    var c := Challenge(d.rpId, d.scope, d.nonce, d.expiresAt, d.logHead);
    if d.version != 1 then Err(ChallengeFormatError)
    else if !ReadableHead(d.logHead) then Err(ChallengeFormatError)
    else if c.InSpec() then Ok(c)
    else Err(ChallengeFormatError)
  }

  /** No log head, or one of the length of a digest. */
  predicate ReadableHead(head: Option<Bytes>) {
    head.None? || |head.value| == DIGEST_LEN
  }

  /** A dictionary reads as a challenge exactly when it has version 1, its log head is absent or has 32 bytes,
      and the challenge it was written from is within the specification. */
  lemma DictExact(d: ChallengeDict, c: Challenge)
    ensures FromDict(d) == Ok(c) <==>
      d == ToDict(c) && d.version == 1 && c.InSpec() && (c.logHead.None? || |c.logHead.value| == 32)
  {
  }

  /** A challenge that was made survives transport if and only if its log head is readable: making a
      challenge does not check the length that reading one insists on. */
  lemma MadeChallengeReadable(rpId: Bytes, scope: int, now: int, ttl: int, logHead: Option<Bytes>, nonce: Bytes)
    requires MakeChallenge(rpId, scope, now, ttl, logHead, nonce).Ok?
    ensures var c := MakeChallenge(rpId, scope, now, ttl, logHead, nonce).value;
      FromDict(ToDict(c)) == if ReadableHead(c.logHead) then Ok(c) else Err(ChallengeFormatError)
  {
  }

  // ---------------------------------------------------------------- tokens

  predicate TokenInSpec(scope: int, keyId: Bytes, digest: Bytes, nonce: Bytes, expiry: int) {
    && scope in SCOPES && |keyId| == KEY_ID_LEN && |digest| == DIGEST_LEN && |nonce| == NONCE_LEN
    && Unsigned(expiry, 8)
  }

  function TokenBytes(scope: int, keyId: Bytes, digest: Bytes, nonce: Bytes, expiry: int): (s: Bytes)
    requires TokenInSpec(scope, keyId, digest, nonce, expiry)
    ensures |s| == MSG_LEN
  {
    TwoBytes();
    TOKEN_TAG + I2osp(TOKEN_TYPE_V1, 2) + [scope] + keyId + digest + nonce + I2osp(expiry, 8)
  }

  function EncodeTokenMsg(scope: int, keyId: Bytes, digest: Bytes, nonce: Bytes,
                          expiry: int): Result<Bytes, FormatError>
  {
    if TokenInSpec(scope, keyId, digest, nonce, expiry) then Ok(TokenBytes(scope, keyId, digest, nonce, expiry))
    else Err(TokenFormatError)
  }

  /** The token message that answers a challenge under a key. */
  function TokenMsgForChallenge(sha: Hash, c: Challenge, keyId: Bytes): Result<Bytes, FormatError> {
    var digest := c.Digest(sha);
    if digest.Err? then Err(digest.error) else EncodeTokenMsg(c.scope, keyId, digest.value, c.nonce, c.expiresAt)
  }

  datatype TokenFields = TokenFields(scopeId: int, keyId: Bytes, challengeDigest: Bytes, nonce: Bytes, expiry: int,
                                     preparedMsg: Bytes, signature: Bytes)

  function EncodeToken(preparedMsg: Bytes, signature: Bytes): Result<Bytes, FormatError> {
    if |preparedMsg| != PREPARED_LEN || signature == [] then Err(TokenFormatError) else Ok(preparedMsg + signature)
  }

  function ParseToken(wire: Bytes): Result<TokenFields, FormatError> {
    if |wire| <= PREPARED_LEN then Err(TokenFormatError)
    else
      var prepared, signature := wire[..PREPARED_LEN], wire[PREPARED_LEN..];
      var msg := prepared[Rsabssa.PREFIX_LEN..];
      if msg[..15] != TOKEN_TAG then Err(TokenFormatError)
      else if Os2ip(msg[15..17]) != TOKEN_TYPE_V1 then Err(TokenFormatError)
      else if msg[17] !in SCOPES then Err(TokenFormatError)
      else
        Ok(TokenFields(msg[17], msg[18..50], msg[50..82], msg[82..114], Os2ip(msg[114..122]), prepared, signature))
  }

  /** Where each field of the token message lies. */
  lemma MessageParts(scope: int, keyId: Bytes, digest: Bytes, nonce: Bytes, expiry: int)
    requires TokenInSpec(scope, keyId, digest, nonce, expiry)
    ensures Pow(256, 2) == 0x1_0000 && I2osp(TOKEN_TYPE_V1, 2) == [0, 1] && TOKEN_TAG == Ascii("zkage/v1/token") + [0]
    ensures var msg := TokenBytes(scope, keyId, digest, nonce, expiry);
      && |msg| == 122 && msg[..15] == Ascii("zkage/v1/token") + [0] && msg[15..17] == [0, 1] && msg[17] == scope
      && msg[18..50] == keyId && msg[50..82] == digest && msg[82..114] == nonce && msg[114..122] == I2osp(expiry, 8)
  {
    TwoBytes();
    assert TOKEN_TAG == Ascii("zkage/v1/token") + [0];
    assert I2osp(1, 2) == [] + [0] + [1];
  }

  /** Parsing gives back every field that was encoded, and the exact signed bytes. */
  lemma EncodeThenParse(prefix: Bytes, scope: int, keyId: Bytes, digest: Bytes, nonce: Bytes, expiry: int,
                        signature: Bytes)
    requires |prefix| == Rsabssa.PREFIX_LEN && signature != []
    requires EncodeTokenMsg(scope, keyId, digest, nonce, expiry).Ok?
    ensures var prepared := prefix + EncodeTokenMsg(scope, keyId, digest, nonce, expiry).value;
      && EncodeToken(prepared, signature).Ok?
      && ParseToken(EncodeToken(prepared, signature).value)
         == Ok(TokenFields(scope, keyId, digest, nonce, expiry, prepared, signature))
  {
    var msg := TokenBytes(scope, keyId, digest, nonce, expiry);
    var prepared := prefix + msg;
    var wire := prepared + signature;
    assert wire[..PREPARED_LEN] == prepared && wire[PREPARED_LEN..] == signature;
    assert prepared[Rsabssa.PREFIX_LEN..] == msg;
    MessageParts(scope, keyId, digest, nonce, expiry);
    Os2ipOfI2osp(TOKEN_TYPE_V1, 2);
    Os2ipOfI2osp(expiry, 8);
  }

  lemma MessageSplit(msg: Bytes)
    requires |msg| == MSG_LEN
    ensures msg == msg[..15] + msg[15..17] + [msg[17]] + msg[18..50] + msg[50..82] + msg[82..114] + msg[114..122]
  {
  }

  /** Encoding the fields of an accepted wire gives back that wire: no second encoding is accepted. */
  lemma ParseThenEncode(wire: Bytes)
    requires ParseToken(wire).Ok?
    ensures var f := ParseToken(wire).value;
      && EncodeTokenMsg(f.scopeId, f.keyId, f.challengeDigest, f.nonce, f.expiry)
         == Ok(f.preparedMsg[Rsabssa.PREFIX_LEN..])
      && |f.preparedMsg| == PREPARED_LEN && EncodeToken(f.preparedMsg, f.signature) == Ok(wire)
  {
    var f := ParseToken(wire).value;
    var msg := f.preparedMsg[Rsabssa.PREFIX_LEN..];
    I2ospOfOs2ip(msg[15..17]);
    I2ospOfOs2ip(msg[114..122]);
    MessageSplit(msg);
    assert wire == f.preparedMsg + f.signature;
  }
}
