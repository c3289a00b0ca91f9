/** Federation scope keys: identifiers, key policy and the record a keyset holds. */
module Keys {
  import opened Wrappers
  import opened Bytes
  import opened Rsa
  import opened TransLog

  const ALLOWED_MODULUS_BITS := [2048, 3072, 4096]
  const REQUIRED_PUBLIC_EXPONENT := 65537

  /** SHA-256 and the DER encoding and decoding of public keys, all foreign code. */
  datatype KeyCodec = KeyCodec(sha: Hash, encode: PublicKey -> Bytes, decode: Bytes -> Option<PublicKey>)

  function KeyIdOf(c: KeyCodec, pk: PublicKey): Digest32 {
    (c.sha)((c.encode)(pk))
  }

  /** `load_public_key`: `None` stands for its `KeyPolicyError`. */
  function LoadPublicKey(c: KeyCodec, spki: Bytes): Option<PublicKey> {
    var key := (c.decode)(spki);
    if key.None? || key.value.e != REQUIRED_PUBLIC_EXPONENT || BitLen(key.value.n) !in ALLOWED_MODULUS_BITS
    then None
    else key
  }

  datatype ScopeKeyRecord = ScopeKeyRecord(scope: int, epoch: int, keyId: Bytes, spki: Bytes,
                                           notBefore: int, notAfter: int, status: Status) {
    /** The policy-checked key of this record, whose identifier must match its bytes. */
    function Key(c: KeyCodec): Option<PublicKey> {
      var key := LoadPublicKey(c, spki);
      if key.None? || (c.sha)(spki) != keyId then None else key
    }
  }

  /** A key id names one policy-conforming key: two records with one key id that both load hold the
      same key, or their key bytes are an explicit hash collision. */
  lemma KeyIdBindsKey(c: KeyCodec, a: ScopeKeyRecord, b: ScopeKeyRecord)
    requires a.Key(c).Some? && b.Key(c).Some? && a.keyId == b.keyId
    ensures a.Key(c) == b.Key(c) || (a.spki != b.spki && (c.sha)(a.spki) == (c.sha)(b.spki))
    ensures a.Key(c).value.e == REQUIRED_PUBLIC_EXPONENT && BitLen(a.Key(c).value.n) in ALLOWED_MODULUS_BITS
  {
  }

  /** A record loads exactly when its bytes decode to a key with the exponent 65537 and a modulus of 2048, 3072
      or 4096 bits, and hash to its identifier. */
  lemma KeyLoadsExact(c: KeyCodec, r: ScopeKeyRecord, key: PublicKey)
    ensures r.Key(c) == Some(key) <==>
      && (c.decode)(r.spki) == Some(key) && key.e == 65537 && BitLen(key.n) in {2048, 3072, 4096}
      && (c.sha)(r.spki) == r.keyId
  {
  }

  /** A keyset entry that shows a log record, field by field. */
  predicate Shows(k: ScopeKeyRecord, r: LogRecord) {
    && k.scope == r.body.scope && k.epoch == r.body.epoch && k.keyId == r.body.keyId && k.spki == r.body.spki
    && k.notBefore == r.body.notBefore && k.notAfter == r.body.notAfter && k.status == r.body.status
  }

  function ToScopeKeyRecord(r: LogRecord): ScopeKeyRecord {
    ScopeKeyRecord(r.body.scope, r.body.epoch, r.body.keyId, r.body.spki, r.body.notBefore, r.body.notAfter,
                   r.body.status)
  }

  /** The projection shows its record, and nothing else does. */
  lemma ProjectionExact(r: LogRecord, k: ScopeKeyRecord)
    ensures k == ToScopeKeyRecord(r) <==> Shows(k, r)
  {
  }
}
