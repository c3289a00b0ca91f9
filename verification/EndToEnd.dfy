/** From a challenge to an accepted token: the user agent's chain of token message, prepare, blind,
    a signer's reply, finalize and encode, against the relying party's verification. */
module EndToEnd {
  import opened Wrappers
  import opened Modular
  import opened Bytes
  import opened Rsa
  import opened TransLog
  import opened Keys
  import opened Token
  import opened Verifier
  import opened Threshold
  import Rsabssa
  import Pss

  /** What the user agent keeps while the signer works: the prepared message, what is sent, the inverse. */
  datatype Pending = Pending(prepared: Bytes, blinded: Bytes, inv: Bytes)

  /** Everything before the issuance request; `None` stands for any exception on the way. */
  function Request(x: Crypto, pk: PublicKey, keyId: Bytes, c: Challenge, prefix: Bytes, salt: Bytes,
                   r: nat): Option<Pending>
    requires pk.n > 1 && |prefix| == Rsabssa.PREFIX_LEN && |salt| == Rsabssa.DEFAULT_VARIANT.saltLen && 0 < r < pk.n
  {
    var msg := TokenMsgForChallenge(x.codec.sha, c, keyId);
    if msg.Err? then None
    else
      var prepared := Rsabssa.Prepare(msg.value, Rsabssa.DEFAULT_VARIANT, None, prefix);
      if prepared.Err? then None
      else
        var sent := Rsabssa.Blind(x.sha384, pk, prepared.value, Rsabssa.DEFAULT_VARIANT, None, None, salt, r);
        if sent.Err? then None else Some(Pending(prepared.value, sent.value.0, sent.value.1))
  }

  /** Everything after the reply: finalize under the logged key, and encode. */
  function Receive(x: Crypto, pk: PublicKey, p: Pending, reply: Bytes): Option<Bytes>
    requires pk.n > 1
  {
    var sig := Rsabssa.Finalize(x.sha384, pk, p.prepared, reply, p.inv, Rsabssa.DEFAULT_VARIANT);
    if sig.Err? then None
    else
      var wire := EncodeToken(p.prepared, sig.value);
      if wire.Err? then None else Some(wire.value)
  }

  // ---------------------------------------------------------------- whatever the signer replies

  lemma RequestParts(x: Crypto, pk: PublicKey, keyId: Bytes, c: Challenge, prefix: Bytes, salt: Bytes, r: nat)
    requires pk.n > 1 && |prefix| == Rsabssa.PREFIX_LEN && |salt| == Rsabssa.DEFAULT_VARIANT.saltLen && 0 < r < pk.n
    requires Request(x, pk, keyId, c, prefix, salt, r).Some?
    ensures c.InSpec() && |keyId| == KEY_ID_LEN
    ensures Request(x, pk, keyId, c, prefix, salt, r).value.prepared
         == prefix + TokenBytes(c.scope, keyId, x.codec.sha(c.Payload()), c.nonce, c.expiresAt)
  {
  }

  /** Finalizing lets only verified signatures through. */
  lemma ReceiveParts(x: Crypto, pk: PublicKey, p: Pending, reply: Bytes)
    requires pk.n > 1 && Receive(x, pk, p, reply).Some?
    ensures var wire := Receive(x, pk, p, reply).value;
      && |p.prepared| == PREPARED_LEN && |wire| > PREPARED_LEN
      && wire == p.prepared + wire[PREPARED_LEN..] && EncodeToken(p.prepared, wire[PREPARED_LEN..]) == Ok(wire)
      && |wire[PREPARED_LEN..]| == Rsabssa.ModulusLen(pk.n)
      && Rsabssa.Verify(x.sha384, pk, p.prepared, wire[PREPARED_LEN..], Rsabssa.DEFAULT_VARIANT)
  {
    var sig := Rsabssa.Finalize(x.sha384, pk, p.prepared, reply, p.inv, Rsabssa.DEFAULT_VARIANT).value;
    assert (p.prepared + sig)[PREPARED_LEN..] == sig;
  }

  /** A token that comes out has the fields of its challenge and the key id it was requested under. */
  lemma ReceivedFields(x: Crypto, pk: PublicKey, keyId: Bytes, c: Challenge, prefix: Bytes, salt: Bytes, r: nat,
                       reply: Bytes)
    requires pk.n > 1 && |prefix| == Rsabssa.PREFIX_LEN && |salt| == Rsabssa.DEFAULT_VARIANT.saltLen && 0 < r < pk.n
    requires Request(x, pk, keyId, c, prefix, salt, r).Some?
    requires Receive(x, pk, Request(x, pk, keyId, c, prefix, salt, r).value, reply).Some?
    ensures c.InSpec()
    ensures var p := Request(x, pk, keyId, c, prefix, salt, r).value;
      var wire := Receive(x, pk, p, reply).value;
      && |wire| > PREPARED_LEN
      && ParseToken(wire) == Ok(TokenFields(c.scope, keyId, x.codec.sha(c.Payload()), c.nonce, c.expiresAt, p.prepared,
                                            wire[PREPARED_LEN..]))
      && Rsabssa.Verify(x.sha384, pk, p.prepared, wire[PREPARED_LEN..], Rsabssa.DEFAULT_VARIANT)
  {
    var p := Request(x, pk, keyId, c, prefix, salt, r).value;
    RequestParts(x, pk, keyId, c, prefix, salt, r);
    ReceiveParts(x, pk, p, reply);
    var wire := Receive(x, pk, p, reply).value;
    EncodeThenParse(prefix, c.scope, keyId, x.codec.sha(c.Payload()), c.nonce, c.expiresAt, wire[PREPARED_LEN..]);
  }

  /** No token leaves the user agent that the relying party would not accept: whatever bytes the signer
      replies, honest or not, a token that comes out verifies for its challenge as long as the record
      of the key it was obtained under can be used. */
  lemma AnyReplySafe(x: Crypto, trusted: seq<ScopeKeyRecord>, record: ScopeKeyRecord, pk: PublicKey, c: Challenge,
                     prefix: Bytes, salt: Bytes, r: nat, reply: Bytes, now: int)
    requires pk.n > 1 && |prefix| == Rsabssa.PREFIX_LEN && |salt| == Rsabssa.DEFAULT_VARIANT.saltLen && 0 < r < pk.n
    requires record.Key(x.codec) == Some(pk) && RecordFor(trusted, record.keyId) == Some(record)
    requires record.scope == c.scope && record.status == Active && InWindow(record, c, now)
    requires Request(x, pk, record.keyId, c, prefix, salt, r).Some?
    requires Receive(x, pk, Request(x, pk, record.keyId, c, prefix, salt, r).value, reply).Some?
    ensures var wire := Receive(x, pk, Request(x, pk, record.keyId, c, prefix, salt, r).value, reply).value;
      VerifyToken(x, wire, trusted, c, now) == Ok(Verdict(OK, Some(c.scope)))
  {
    var p := Request(x, pk, record.keyId, c, prefix, salt, r).value;
    ReceivedFields(x, pk, record.keyId, c, prefix, salt, r, reply);
    var wire := Receive(x, pk, p, reply).value;
    FieldsAccepted(x, wire, trusted, record, c, now, p.prepared, wire[PREPARED_LEN..]);
  }

  // ---------------------------------------------------------------- an honest signer

  /** Under every admitted key size the encoding always succeeds. */
  lemma PolicyKeyEncodes(x: Crypto, n: nat, prepared: Bytes, salt: Bytes)
    requires n > 0 && BitLen(n) in ALLOWED_MODULUS_BITS && |salt| == Rsabssa.DEFAULT_VARIANT.saltLen
    ensures Rsabssa.EncodeFor(x.sha384, n, prepared, salt).Ok?
  {
    BitLenBounds(n);
    var emLen := BytesFor(BitLen(n) - 1);
    assert 256 <= emLen <= 512;
    TwoBytes();
    PowMonotone(256, 2, 4);
    assert Pss.BlockCount(emLen - Pss.H_LEN - 1) <= 10;
  }

  /** The message representative of the token for a challenge. */
  function RepresentativeOf(x: Crypto, n: nat, keyId: Bytes, c: Challenge, prefix: Bytes, salt: Bytes): nat
    requires n > 0 && BitLen(n) in ALLOWED_MODULUS_BITS && |salt| == Rsabssa.DEFAULT_VARIANT.saltLen
    requires c.InSpec() && |keyId| == KEY_ID_LEN
  {
    var prepared := prefix + TokenBytes(c.scope, keyId, x.codec.sha(c.Payload()), c.nonce, c.expiresAt);
    PolicyKeyEncodes(x, n, prepared, salt);
    Os2ip(Rsabssa.EncodeFor(x.sha384, n, prepared, salt).value)
  }

  /** The token an honest run ends with: prefix, message and the root of the encoding. */
  function TokenOf(x: Crypto, key: PrivateKey, keyId: Bytes, c: Challenge, prefix: Bytes, salt: Bytes): Bytes
    requires key.N() > 1 && BitLen(key.N()) in ALLOWED_MODULUS_BITS && |salt| == Rsabssa.DEFAULT_VARIANT.saltLen
    requires c.InSpec() && |keyId| == KEY_ID_LEN
  {
    prefix + TokenBytes(c.scope, keyId, x.codec.sha(c.Payload()), c.nonce, c.expiresAt)
    + Rsabssa.ToBytes(PowMod(RepresentativeOf(x, key.N(), keyId, c, prefix, salt), key.d, key.N()), key.N())
  }

  /** The request is made exactly when representative and blinding factor are units. What is sent is the
      representative under the power of the factor, which its inverse, and that is what is kept, takes off. */
  lemma RequestExact(x: Crypto, pk: PublicKey, keyId: Bytes, c: Challenge, prefix: Bytes, salt: Bytes, r: nat)
    requires pk.n > 1 && |prefix| == Rsabssa.PREFIX_LEN && |salt| == Rsabssa.DEFAULT_VARIANT.saltLen && 0 < r < pk.n
    requires BitLen(pk.n) in ALLOWED_MODULUS_BITS && c.InSpec() && |keyId| == KEY_ID_LEN
    ensures Request(x, pk, keyId, c, prefix, salt, r).Some?
       <==> Gcd(RepresentativeOf(x, pk.n, keyId, c, prefix, salt), pk.n) == 1 && Gcd(r, pk.n) == 1
    ensures Request(x, pk, keyId, c, prefix, salt, r).Some? ==>
      var p := Request(x, pk, keyId, c, prefix, salt, r).value;
      && (r * Os2ip(p.inv)) % pk.n == 1 && |p.blinded| == Rsabssa.ModulusLen(pk.n)
      && (Os2ip(p.blinded) * PowMod(Os2ip(p.inv), pk.e, pk.n)) % pk.n
           == RepresentativeOf(x, pk.n, keyId, c, prefix, salt) % pk.n
  {
    var prepared := prefix + TokenBytes(c.scope, keyId, x.codec.sha(c.Payload()), c.nonce, c.expiresAt);
    PolicyKeyEncodes(x, pk.n, prepared, salt);
    Rsabssa.BlindExact(x.sha384, pk, prepared, Rsabssa.DEFAULT_VARIANT, None, None, salt, r);
  }

  /** With an honest signer the chain never fails after the request, and its token depends on neither
      the user's blinding factor nor the signer's. */
  lemma HonestChain(x: Crypto, key: PrivateKey, keyId: Bytes, c: Challenge, prefix: Bytes, salt: Bytes, r: nat, z: nat)
    requires key.Valid() && key.N() > 1 && BitLen(key.N()) in ALLOWED_MODULUS_BITS && c.InSpec()
    requires |keyId| == KEY_ID_LEN
    requires |prefix| == Rsabssa.PREFIX_LEN && |salt| == Rsabssa.DEFAULT_VARIANT.saltLen && 0 < r < key.N()
    requires Gcd(z, key.N()) == 1
    requires Request(x, key.Public(), keyId, c, prefix, salt, r).Some?
    ensures var p := Request(x, key.Public(), keyId, c, prefix, salt, r).value;
      var reply := Rsabssa.SignWith(key, p.blinded, z);
      reply.Ok? && Receive(x, key.Public(), p, reply.value) == Some(TokenOf(x, key, keyId, c, prefix, salt))
  {
    var n := key.N();
    var prepared := prefix + TokenBytes(c.scope, keyId, x.codec.sha(c.Payload()), c.nonce, c.expiresAt);
    PolicyKeyEncodes(x, n, prepared, salt);
    RequestExact(x, key.Public(), keyId, c, prefix, salt, r);
    var em := Rsabssa.EncodeFor(x.sha384, n, prepared, salt).value;
    Rsabssa.RoundTrip(x.sha384, key, prepared, Rsabssa.DEFAULT_VARIANT, None, None, salt, r, z, em);
    var sig := Rsabssa.ToBytes(PowMod(Os2ip(em), key.d, n), n);
    ModulusNotEmpty(n);
    assert |sig| == Rsabssa.ModulusLen(n);
  }

  lemma ModulusNotEmpty(n: nat)
    requires n > 0
    ensures Rsabssa.ModulusLen(n) > 0
  {
    BitLenBounds(n);
  }

  /** A quorum of any two operators leads to the same token as the plain signer. */
  lemma QuorumChain(x: Crypto, deal: ThresholdDeal, key: PrivateKey, left: Party, right: Party, zLeft: nat, zRight: nat,
                    keyId: Bytes, c: Challenge, prefix: Bytes, salt: Bytes, r: nat)
    requires key.Valid() && key.N() > 1 && BitLen(key.N()) in ALLOWED_MODULUS_BITS && c.InSpec()
    requires |keyId| == KEY_ID_LEN
    requires |prefix| == Rsabssa.PREFIX_LEN && |salt| == Rsabssa.DEFAULT_VARIANT.saltLen && 0 < r < key.N()
    requires WellDealt(deal, key) && left in deal.parties && right in deal.parties && left != right
    requires Gcd(zLeft, key.N()) == 1 && Gcd(zRight, key.N()) == 1
    requires Request(x, key.Public(), keyId, c, prefix, salt, r).Some?
    ensures var p := Request(x, key.Public(), keyId, c, prefix, salt, r).value;
      var reply := BlindSignThresholded(deal, left, right, Raw(p.blinded), zLeft, zRight);
      reply.Ok? && Receive(x, key.Public(), p, reply.value) == Some(TokenOf(x, key, keyId, c, prefix, salt))
  {
    var p := Request(x, key.Public(), keyId, c, prefix, salt, r).value;
    HonestChain(x, key, keyId, c, prefix, salt, r, zLeft);
    ThresholdRefinesBlindSign(deal, key, left, right, p.blinded, zLeft, zRight, zLeft);
  }

  /** End to end: for every challenge the relying party makes, every key pair the policy admits, and
      all random choices, the honest chain succeeds exactly when the representative and the blinding
      factor are units, and its token is accepted, with the challenged scope, at every time from the
      making of the challenge until it expires, given a trusted record that is active and valid then. */
  lemma HonestTokenAccepted(x: Crypto, trusted: seq<ScopeKeyRecord>, record: ScopeKeyRecord, key: PrivateKey,
                            rpId: Bytes, scope: int, t0: int, ttl: int, logHead: Option<Bytes>, nonce: Bytes,
                            prefix: Bytes, salt: Bytes, r: nat, z: nat, now: int)
    requires MakeChallenge(rpId, scope, t0, ttl, logHead, nonce).Ok? && t0 <= now < t0 + ttl
    requires key.Valid() && key.N() > 1 && record.Key(x.codec) == Some(key.Public())
    requires RecordFor(trusted, record.keyId) == Some(record) && record.scope == scope
    requires record.status == Active && record.notBefore <= now <= record.notAfter
    requires |prefix| == Rsabssa.PREFIX_LEN && |salt| == Rsabssa.DEFAULT_VARIANT.saltLen
    requires 0 < r < key.N() && Gcd(z, key.N()) == 1
    ensures BitLen(key.N()) in ALLOWED_MODULUS_BITS && |record.keyId| == KEY_ID_LEN
    ensures var c := MakeChallenge(rpId, scope, t0, ttl, logHead, nonce).value;
      var request := Request(x, key.Public(), record.keyId, c, prefix, salt, r);
      && (request.Some? <==>
            Gcd(RepresentativeOf(x, key.N(), record.keyId, c, prefix, salt), key.N()) == 1 && Gcd(r, key.N()) == 1)
      && (request.Some? ==>
            var reply := Rsabssa.SignWith(key, request.value.blinded, z);
            && reply.Ok?
            && var wire := Receive(x, key.Public(), request.value, reply.value);
               && wire == Some(TokenOf(x, key, record.keyId, c, prefix, salt))
               && VerifyToken(x, wire.value, trusted, c, now) == Ok(Verdict(OK, Some(scope))))
  {
    var c := MakeChallenge(rpId, scope, t0, ttl, logHead, nonce).value;
    RequestExact(x, key.Public(), record.keyId, c, prefix, salt, r);
    var request := Request(x, key.Public(), record.keyId, c, prefix, salt, r);
    if request.Some? {
      HonestChain(x, key, record.keyId, c, prefix, salt, r, z);
      var reply := Rsabssa.SignWith(key, request.value.blinded, z).value;
      AnyReplySafe(x, trusted, record, key.Public(), c, prefix, salt, r, reply, now);
    }
  }
}
