/** RSA blind signatures: Prepare, Blind, BlindSign, Finalize and Verify of RFC 9474
    (sections 4.1 to 4.5, signer-side blinding of section 7.1). Random values are inputs. */
module Rsabssa {
  import opened Wrappers
  import opened Modular
  import opened Bytes
  import opened Rsa
  import opened Pss

  const PREFIX_LEN := 32

  datatype Variant = Variant(saltLen: nat, randomized: bool)

  const DEFAULT_VARIANT := Variant(48, true)

  type Signature = Result<Bytes, Error>

  /** The modulus length in bytes. */
  function ModulusLen(n: nat): nat { BytesFor(BitLen(n)) }

  /** A residue written at modulus length. */
  function ToBytes(v: nat, n: nat): (s: Bytes)
    requires v < n
    ensures |s| == ModulusLen(n) && Os2ip(s) == v
  {
    FitsModulus(n, v);
    Os2ipOfI2osp(v, ModulusLen(n));
    I2osp(v, ModulusLen(n))
  }

  lemma ToBytesUnique(s: Bytes, n: nat)
    requires |s| == ModulusLen(n) && Os2ip(s) < n
    ensures ToBytes(Os2ip(s), n) == s
  {
    I2ospOfOs2ip(s);
  }

  function Prepare(msg: Bytes, variant: Variant, prefix: Option<Bytes>, drawnPrefix: Bytes): Result<Bytes, Error>
    requires |drawnPrefix| == PREFIX_LEN
  {
    if !variant.randomized then
      if prefix.Some? then Err(InvalidInput) else Ok(msg)
    else
      var p := if prefix.None? then drawnPrefix else prefix.value;
      if |p| != PREFIX_LEN then Err(InvalidInput) else Ok(p + msg)
  }

  /** The encoded message for a key; its width in bits is one less than the modulus. */
  function EncodeFor(h: Bytes -> Digest48, n: nat, prepared: Bytes, salt: Bytes): Result<Bytes, Error>
    requires n > 0
  {
    BitLenBounds(n);
    Encode(h, prepared, BitLen(n) - 1, salt)
  }

  /** The message representative is always below the modulus. */
  lemma EncodingBelowModulus(h: Bytes -> Digest48, n: nat, prepared: Bytes, salt: Bytes, em: Bytes)
    requires n > 0 && EncodeFor(h, n, prepared, salt) == Ok(em)
    ensures Os2ip(em) < n
  {
    BitLenBounds(n);
    EncodeThenVerify(h, prepared, BitLen(n) - 1, salt, em);
  }

  /** Where a blinding factor and its inverse come from: drawn, or injected as the inverse. */
  function BlindingPair(n: nat, rInv: Option<int>, drawnR: nat): Result<(nat, nat), Error>
    requires n > 1
  {
    match rInv
    case None =>
      var inv := ModInv(drawnR, n);
      if inv.None? then Err(BlindingError) else Ok((drawnR, inv.value))
    case Some(i) =>
      if !(0 < i < n) then Err(InvalidInput)
      else
        var r := ModInv(i, n);
        if r.None? then Err(BlindingError) else Ok((r.value, i))
  }

  /** The blinded message and the blinding inverse, both at modulus length. */
  function Blind(h: Bytes -> Digest48, pk: PublicKey, prepared: Bytes, variant: Variant,
                 salt: Option<Bytes>, rInv: Option<int>, drawnSalt: Bytes, drawnR: nat): Result<(Bytes, Bytes), Error>
    requires pk.n > 1 && |drawnSalt| == variant.saltLen && 0 < drawnR < pk.n
  {
    if salt.Some? && |salt.value| != variant.saltLen then Err(InvalidInput)
    else
      var em := EncodeFor(h, pk.n, prepared, if salt.Some? then salt.value else drawnSalt);
      if em.Err? then Err(em.error)
      else
        var m := Os2ip(em.value);
        if Gcd(m, pk.n) != 1 then Err(InvalidInput)
        else
          var pair := BlindingPair(pk.n, rInv, drawnR);
          if pair.Err? then Err(pair.error)
          else
            var (r, inv) := pair.value;
            Ok((ToBytes((m * PowMod(r, pk.e, pk.n)) % pk.n, pk.n), ToBytes(inv, pk.n)))
  }

  /** Blinding succeeds exactly for a salt of the right length, an encoding that exists and is a unit,
      and a factor with an inverse; and then the inverse takes the blinding off again: multiplying what
      is sent by its e-th power gives the representative back. */
  lemma BlindExact(h: Bytes -> Digest48, pk: PublicKey, prepared: Bytes, variant: Variant,
                   salt: Option<Bytes>, rInv: Option<int>, drawnSalt: Bytes, drawnR: nat)
    requires pk.n > 1 && |drawnSalt| == variant.saltLen && 0 < drawnR < pk.n
    ensures var used := if salt.Some? then salt.value else drawnSalt;
      var em := EncodeFor(h, pk.n, prepared, used);
      var sent := Blind(h, pk, prepared, variant, salt, rInv, drawnSalt, drawnR);
      && (sent.Ok? <==> |used| == variant.saltLen && em.Ok? && Gcd(Os2ip(em.value), pk.n) == 1
                        && (if rInv.Some? then 0 < rInv.value < pk.n && Gcd(rInv.value, pk.n) == 1
                            else Gcd(drawnR, pk.n) == 1))
      && (sent.Ok? ==> |sent.value.0| == |sent.value.1| == ModulusLen(pk.n)
                       && (Os2ip(sent.value.0) * PowMod(Os2ip(sent.value.1), pk.e, pk.n)) % pk.n
                            == Os2ip(em.value) % pk.n)
      && (sent.Ok? ==> if rInv.Some? then Os2ip(sent.value.1) == rInv.value
                       else (drawnR * Os2ip(sent.value.1)) % pk.n == 1)
  {
    var n, e := pk.n, pk.e;
    var em := EncodeFor(h, n, prepared, if salt.Some? then salt.value else drawnSalt);
    var pair := BlindingPair(n, rInv, drawnR);
    if em.Ok? && pair.Ok? {
      BlindingPairInverse(n, rInv, drawnR);
      var (r, inv) := pair.value;
      UnblindedRepresentative(Os2ip(em.value), r, inv, e, n);
    }
  }

  /** Why blinding fails: the first of salt length, encoding, unit and factor that is wrong. */
  lemma BlindErrors(h: Bytes -> Digest48, pk: PublicKey, prepared: Bytes, variant: Variant,
                    salt: Option<Bytes>, rInv: Option<int>, drawnSalt: Bytes, drawnR: nat)
    requires pk.n > 1 && |drawnSalt| == variant.saltLen && 0 < drawnR < pk.n
    ensures var used := if salt.Some? then salt.value else drawnSalt;
      var em := EncodeFor(h, pk.n, prepared, used);
      var sent := Blind(h, pk, prepared, variant, salt, rInv, drawnSalt, drawnR);
      if |used| != variant.saltLen then sent == Err(InvalidInput)
      else if em.Err? then sent == Err(em.error)
      else if Gcd(Os2ip(em.value), pk.n) != 1 || (rInv.Some? && !(1 <= rInv.value <= pk.n - 1))
      then sent == Err(InvalidInput)
      else if Gcd(if rInv.Some? then rInv.value else drawnR, pk.n) != 1 then sent == Err(BlindingError)
      else sent.Ok?
  {
  }

  /** Drawing a factor is injecting its inverse, so that the results about injected inverses are results
      about drawn factors too. */
  lemma DrawnIsInjected(h: Bytes -> Digest48, pk: PublicKey, prepared: Bytes, variant: Variant,
                        salt: Option<Bytes>, drawnSalt: Bytes, drawnR: nat)
    requires pk.n > 1 && |drawnSalt| == variant.saltLen && 0 < drawnR < pk.n && Gcd(drawnR, pk.n) == 1
    ensures Blind(h, pk, prepared, variant, salt, None, drawnSalt, drawnR)
         == Blind(h, pk, prepared, variant, salt, Some(ModInv(drawnR, pk.n).value), drawnSalt, drawnR)
  {
    var inv := ModInv(drawnR, pk.n).value;
    UnitHasGcdOne(inv, pk.n, drawnR);
    InverseOfInverse(drawnR, inv, pk.n);
  }

  lemma UnblindedRepresentative(m: nat, r: nat, inv: nat, e: nat, n: nat)
    requires n > 1 && (r * inv) % n == 1
    ensures ((m * PowMod(r, e, n)) % n * PowMod(inv, e, n)) % n == m % n
  {
    var a, b := PowMod(r, e, n), PowMod(inv, e, n);
    PowProduct(r, inv, e);
    SmallMod(1, n);
    CongPow(r * inv, 1, e, n);
    PowOne(e);
    MulModMod(Pow(r, e), Pow(inv, e), n);
    assert (a * b) % n == 1;
    ModMod(m * a, n);
    CongMul((m * a) % n, m * a, b, b, n);
    assert (m * a) * b == m * (a * b);
    CongMul(m, m, a * b, 1, n);
  }

  /** One pass of the signer with signer-side blinding factor `z`. */
  function SignWith(key: PrivateKey, blindedMsg: Bytes, z: nat): Signature
    requires key.N() > 1 && Gcd(z, key.N()) == 1
  {
    var n := key.N();
    if |blindedMsg| != ModulusLen(n) then Err(UnexpectedInputSize)
    else
      var m := Os2ip(blindedMsg);
      if m >= n then Err(InvalidInput)
      else
        var s := (PowMod((m * PowMod(z, key.e, n)) % n, key.d, n) * ModInv(z, n).value) % n;
        if PowMod(s, key.e, n) != m then Err(SigningFailure) else Ok(ToBytes(s, n))
  }

  /** What the signer is meant to return: the e-th root of the representative. */
  function HonestSignature(key: PrivateKey, blindedMsg: Bytes): Signature
    requires key.N() > 1
  {
    var n := key.N();
    if |blindedMsg| != ModulusLen(n) then Err(UnexpectedInputSize)
    else if Os2ip(blindedMsg) >= n then Err(InvalidInput)
    else Ok(ToBytes(PowMod(Os2ip(blindedMsg), key.d, n), n))
  }

  /** Signer-side blinding cancels: the factor `z` leaves no trace in the root. */
  lemma BlindingCancels(key: PrivateKey, m: nat, z: nat)
    requires key.Valid() && key.N() > 1 && Gcd(z, key.N()) == 1
    ensures (PowMod((m * PowMod(z, key.e, key.N())) % key.N(), key.d, key.N()) * ModInv(z, key.N()).value) % key.N()
         == PowMod(m, key.d, key.N())
  {
    var n, e, d := key.N(), key.e, key.d;
    var y, i := PowMod(z, e, n), ModInv(z, n).value;
    MaskedRoot(key, m, y);
    ExponentsInverse(key, z);
    ModMod(z, n);
    var root := PowMod(m, d, n);
    CongMul(root, root, PowMod(y, d, n), z, n);
    MulModMod(root * PowMod(y, d, n), i, n);
    CongMul(root * PowMod(y, d, n), root * z, i, i, n);
    UndoUnit(z, i, root, n);
    assert root * z == z * root;
    SmallMod(root, n);
  }

  /** Roots multiply. */
  lemma MaskedRoot(key: PrivateKey, m: nat, y: nat)
    requires key.N() > 1
    ensures PowMod((m * y) % key.N(), key.d, key.N())
        == (PowMod(m, key.d, key.N()) * PowMod(y, key.d, key.N())) % key.N()
  {
    var n, d := key.N(), key.d;
    ModMod(m * y, n);
    CongPow((m * y) % n, m * y, d, n);
    PowProduct(m, y, d);
    MulModMod(Pow(m, d), Pow(y, d), n);
  }

  /** BlindSign is total and deterministic: whatever `z` is drawn, and for every representative,
      units or not, the result is the honest signature and the self-check never fails. */
  lemma BlindSignTotal(key: PrivateKey, blindedMsg: Bytes, z: nat)
    requires key.Valid() && key.N() > 1 && Gcd(z, key.N()) == 1
    ensures SignWith(key, blindedMsg, z) == HonestSignature(key, blindedMsg)
  {
    var n, m := key.N(), Os2ip(blindedMsg);
    if |blindedMsg| == ModulusLen(n) && m < n {
      BlindingCancels(key, m, z);
      RootUnique(key, PowMod(m, key.d, n), m);
    }
  }

  /** The signer checks itself: under any key, valid or not, what it returns is a root of the message. */
  lemma SignedIsRoot(key: PrivateKey, blindedMsg: Bytes, z: nat)
    requires key.N() > 1 && Gcd(z, key.N()) == 1 && SignWith(key, blindedMsg, z).Ok?
    ensures var s := SignWith(key, blindedMsg, z).value;
      && |s| == |blindedMsg| == ModulusLen(key.N()) && Os2ip(s) < key.N()
      && PowMod(Os2ip(s), key.e, key.N()) == Os2ip(blindedMsg)
  {
  }

  ghost predicate SomeUnit(draws: seq<nat>, n: nat)
    requires n > 1
  {
    exists i :: 0 <= i < |draws| && Gcd(draws[i], n) == 1
  }

  /** The first draw that has an inverse; the retry loop stops there. */
  function FirstUnit(draws: seq<nat>, n: nat): (z: nat)
    requires n > 1 && SomeUnit(draws, n)
    ensures Gcd(z, n) == 1 && z in draws
  {
    if Gcd(draws[0], n) == 1 then draws[0]
    else
      assert SomeUnit(draws[1..], n) by {
        var i :| 0 <= i < |draws| && Gcd(draws[i], n) == 1;
        assert draws[1..][i - 1] == draws[i];
      }
      FirstUnit(draws[1..], n)
  }

  /** The signer, with the values its random generator hands out as input; the runs in which
      the retry loop ends are those where some draw is invertible. */
  method BlindSign(key: PrivateKey, blindedMsg: Bytes, draws: seq<nat>) returns (sig: Signature)
    requires key.N() > 1
    requires SomeUnit(draws, key.N())
    ensures sig == SignWith(key, blindedMsg, FirstUnit(draws, key.N()))
    ensures key.Valid() ==> sig == HonestSignature(key, blindedMsg)
  {
    if key.Valid() {
      BlindSignTotal(key, blindedMsg, FirstUnit(draws, key.N()));
    }
    var n, e, d := key.N(), key.e, key.d;
    if |blindedMsg| != ModulusLen(n) {
      return Err(UnexpectedInputSize);
    }
    var m := Os2ip(blindedMsg);
    if m >= n {
      return Err(InvalidInput);
    }
    var left, z := draws, draws[0];
    var zInv := ModInv(z, n);
    while zInv.None?
      invariant SomeUnit(left, n) && FirstUnit(left, n) == FirstUnit(draws, n)
      invariant z == left[0] && zInv == ModInv(z, n)
      decreases |left|
    {
      assert left[1..] != [] by {
        var i :| 0 <= i < |left| && Gcd(left[i], n) == 1;
      }
      assert SomeUnit(left[1..], n) by {
        var i :| 0 <= i < |left| && Gcd(left[i], n) == 1;
        assert left[1..][i - 1] == left[i];
      }
      left := left[1..];
      z := left[0];
      zInv := ModInv(z, n);
    }
    var s := (PowMod((m * PowMod(z, e, n)) % n, d, n) * zInv.value) % n;
    if PowMod(s, e, n) != m {
      return Err(SigningFailure);
    }
    sig := Ok(ToBytes(s, n));
  }

  /** The part of verification after the public-key operation: the residue, written at the encoding's
      length, passes EMSA-PSS-VERIFY. */
  predicate ResidueVerifies(h: Bytes -> Digest48, prepared: Bytes, m: nat, emBits: nat, saltLen: nat) {
    var emLen := BytesFor(emBits);
    m < Pow(256, emLen) && Recover(h, prepared, I2osp(m, emLen), emBits, saltLen).Some?
  }

  lemma EncodingAccepted(h: Bytes -> Digest48, prepared: Bytes, emBits: nat, salt: Bytes, em: Bytes)
    requires Encode(h, prepared, emBits, salt) == Ok(em)
    ensures ResidueVerifies(h, prepared, Os2ip(em), emBits, |salt|)
  {
    EncodeThenVerify(h, prepared, emBits, salt, em);
    I2ospOfOs2ip(em);
  }

  lemma AcceptedIsEncoding(h: Bytes -> Digest48, prepared: Bytes, m: nat, emBits: nat, saltLen: nat)
    returns (salt: Bytes, em: Bytes)
    requires ResidueVerifies(h, prepared, m, emBits, saltLen)
    ensures |salt| == saltLen && Encode(h, prepared, emBits, salt) == Ok(em) && Os2ip(em) == m
  {
    em := I2osp(m, BytesFor(emBits));
    VerifyThenEncode(h, prepared, em, emBits, saltLen);
    salt := Recover(h, prepared, em, emBits, saltLen).value;
    Os2ipOfI2osp(m, BytesFor(emBits));
  }

  /** RSASSA-PSS-VERIFY (section 8.1.2 of RFC 8017) for the variant's salt length. */
  predicate Verify(h: Bytes -> Digest48, pk: PublicKey, prepared: Bytes, sig: Bytes, variant: Variant)
    requires pk.n > 1
  {
    && |sig| == ModulusLen(pk.n)
    && Os2ip(sig) < pk.n
    && ResidueVerifies(h, prepared, PowMod(Os2ip(sig), pk.e, pk.n), BitLen(pk.n) - 1, variant.saltLen)
  }

  /** Unblind and verify. */
  function Finalize(h: Bytes -> Digest48, pk: PublicKey, prepared: Bytes, blindSig: Bytes, inv: Bytes,
                    variant: Variant): Signature
    requires pk.n > 1
  {
    if |blindSig| != ModulusLen(pk.n) then Err(UnexpectedInputSize)
    else
      var sig := ToBytes((Os2ip(blindSig) * Os2ip(inv)) % pk.n, pk.n);
      if Verify(h, pk, prepared, sig, variant) then Ok(sig) else Err(InvalidSignature)
  }

  /** What finalising answers: the unblinded product, written at modulus length, if it verifies. */
  lemma FinalizeExact(h: Bytes -> Digest48, pk: PublicKey, prepared: Bytes, blindSig: Bytes, inv: Bytes,
                      variant: Variant)
    requires pk.n > 1
    ensures var r := Finalize(h, pk, prepared, blindSig, inv, variant);
      && (|blindSig| != ModulusLen(pk.n) <==> r == Err(UnexpectedInputSize))
      && (r.Ok? ==> |r.value| == ModulusLen(pk.n) && Os2ip(r.value) == (Os2ip(blindSig) * Os2ip(inv)) % pk.n
                    && Verify(h, pk, prepared, r.value, variant))
      && (|blindSig| == ModulusLen(pk.n) && r.Err? ==>
            r == Err(InvalidSignature)
            && forall sig :: |sig| == ModulusLen(pk.n) && Os2ip(sig) == (Os2ip(blindSig) * Os2ip(inv)) % pk.n ==>
                 !Verify(h, pk, prepared, sig, variant))
  {
    var s := (Os2ip(blindSig) * Os2ip(inv)) % pk.n;
    forall sig | |sig| == ModulusLen(pk.n) && Os2ip(sig) == s
      ensures sig == ToBytes(s, pk.n)
    {
      ToBytesUnique(sig, pk.n);
    }
  }

  /** The signature of a prepared message with a given salt: the root of its encoding. */
  ghost predicate IsSignature(h: Bytes -> Digest48, key: PrivateKey, prepared: Bytes, salt: Bytes, sig: Bytes)
    requires key.N() > 1
  {
    var em := EncodeFor(h, key.N(), prepared, salt);
    em.Ok? && sig == ToBytes(PowMod(Os2ip(em.value), key.d, key.N()), key.N())
  }

  /** The root of an encoding verifies. */
  lemma RootVerifies(h: Bytes -> Digest48, key: PrivateKey, prepared: Bytes, variant: Variant, salt: Bytes, sig: Bytes)
    requires key.Valid() && key.N() > 1 && |salt| == variant.saltLen
    requires IsSignature(h, key, prepared, salt, sig)
    ensures Verify(h, key.Public(), prepared, sig, variant)
  {
    var n := key.N();
    var em := EncodeFor(h, n, prepared, salt).value;
    BitLenBounds(n);
    EncodingBelowModulus(h, n, prepared, salt, em);
    EncodingAccepted(h, prepared, BitLen(n) - 1, salt, em);
    RootUnique(key, Os2ip(sig), Os2ip(em));
  }

  /** Whatever verifies is the root of the encoding with the salt that verification recovers. */
  lemma VerifiedIsRoot(h: Bytes -> Digest48, key: PrivateKey, prepared: Bytes, variant: Variant, sig: Bytes)
    returns (salt: Bytes)
    requires key.Valid() && key.N() > 1 && Verify(h, key.Public(), prepared, sig, variant)
    ensures |salt| == variant.saltLen && IsSignature(h, key, prepared, salt, sig)
  {
    var n := key.N();
    var m := PowMod(Os2ip(sig), key.e, n);
    RootBytes(key, sig, m);
    var em;
    salt, em := AcceptedIsEncoding(h, prepared, m, BitLen(n) - 1, variant.saltLen);
    EncodesFor(h, n, prepared, salt, em);
    RootOfEncoding(h, key, prepared, salt, em, sig);
  }

  lemma EncodesFor(h: Bytes -> Digest48, n: nat, prepared: Bytes, salt: Bytes, em: Bytes)
    requires n > 1 && BitLen(n) > 0 && Encode(h, prepared, BitLen(n) - 1, salt) == Ok(em)
    ensures EncodeFor(h, n, prepared, salt) == Ok(em)
  {
  }

  lemma RootOfEncoding(h: Bytes -> Digest48, key: PrivateKey, prepared: Bytes, salt: Bytes, em: Bytes, sig: Bytes)
    requires key.N() > 1 && EncodeFor(h, key.N(), prepared, salt) == Ok(em)
    requires sig == ToBytes(PowMod(Os2ip(em), key.d, key.N()), key.N())
    ensures IsSignature(h, key, prepared, salt, sig)
  {
  }

  lemma RootBytes(key: PrivateKey, sig: Bytes, m: nat)
    requires key.Valid() && key.N() > 1 && |sig| == ModulusLen(key.N()) && Os2ip(sig) < key.N()
    requires m == PowMod(Os2ip(sig), key.e, key.N())
    ensures sig == ToBytes(PowMod(m, key.d, key.N()), key.N())
  {
    RootUnique(key, Os2ip(sig), m);
    ToBytesUnique(sig, key.N());
  }

  /** Verification accepts exactly the roots of the encodings with a salt of the variant's length. */
  lemma VerifyExact(h: Bytes -> Digest48, key: PrivateKey, prepared: Bytes, variant: Variant, sig: Bytes)
    requires key.Valid() && key.N() > 1
    ensures Verify(h, key.Public(), prepared, sig, variant)
       <==> exists salt :: |salt| == variant.saltLen && IsSignature(h, key, prepared, salt, sig)
  {
    if Verify(h, key.Public(), prepared, sig, variant) {
      var salt := VerifiedIsRoot(h, key, prepared, variant, sig);
    }
    forall salt | |salt| == variant.saltLen && IsSignature(h, key, prepared, salt, sig)
      ensures Verify(h, key.Public(), prepared, sig, variant)
    {
      RootVerifies(h, key, prepared, variant, salt, sig);
    }
  }

  /** A signature binds its message: if it verifies for two prepared messages under one public key, they are
      the same, or two hash inputs collide for the salt that it carries. */
  lemma SignatureBinds(h: Bytes -> Digest48, pk: PublicKey, a: Bytes, b: Bytes, sig: Bytes, variant: Variant)
    returns (salt: Bytes)
    requires pk.n > 1 && Verify(h, pk, a, sig, variant) && Verify(h, pk, b, sig, variant)
    ensures |salt| == variant.saltLen && (a == b || MessagesCollide(h, a, b, salt))
  {
    var emBits := BitLen(pk.n) - 1;
    var em := I2osp(PowMod(Os2ip(sig), pk.e, pk.n), BytesFor(emBits));
    VerifyThenEncode(h, a, em, emBits, variant.saltLen);
    EncodingBinds(h, a, b, em, emBits, variant.saltLen);
    salt := Recover(h, a, em, emBits, variant.saltLen).value;
  }

  /** The encoding for a key is one bit narrower than its modulus. */
  lemma EncodingWidth(h: Bytes -> Digest48, n: nat, bits: nat, prepared: Bytes, salt: Bytes)
    requires 0 < bits && Pow(2, bits - 1) <= n < Pow(2, bits) && n > 0
    ensures EncodeFor(h, n, prepared, salt) == Encode(h, prepared, bits - 1, salt) && ModulusLen(n) == (bits + 7) / 8
  {
    BitLenExact(n, bits);
  }

  /** Preparing puts 32 bytes, given or drawn, before the message, or leaves it as it is. */
  lemma PrepareExact(msg: Bytes, variant: Variant, prefix: Option<Bytes>, drawn: Bytes, prepared: Bytes)
    requires |drawn| == 32
    ensures Prepare(msg, variant, prefix, drawn) == Ok(prepared) <==>
      if variant.randomized
      then prepared == (if prefix.Some? then prefix.value else drawn) + msg && |prepared| == 32 + |msg|
      else prefix.None? && prepared == msg
  {
  }

  /** Multiplying the root of a blinded message by the blinding inverse gives the root of the message. */
  lemma UnblindRoot(key: PrivateKey, m: nat, r: nat, inv: nat)
    requires key.Valid() && key.N() > 1 && (r * inv) % key.N() == 1
    ensures (PowMod((m * PowMod(r, key.e, key.N())) % key.N(), key.d, key.N()) * inv) % key.N()
         == PowMod(m, key.d, key.N())
  {
    var n := key.N();
    UnitHasGcdOne(r, n, inv);
    BlindingCancels(key, m, r);
    var i := ModInv(r, n).value;
    var b := PowMod((m * PowMod(r, key.e, n)) % n, key.d, n);
    assert inv % n == i % n by {
      SmallMod(1, n);
      CancelUnit(r, inv, i, n);
    }
    CongMul(b, b, inv, i, n);
  }

  lemma BlindingPairInverse(n: nat, rInv: Option<int>, drawnR: nat)
    requires n > 1 && 0 < drawnR < n && BlindingPair(n, rInv, drawnR).Ok?
    ensures var (r, inv) := BlindingPair(n, rInv, drawnR).value;
      0 < r < n && 0 < inv < n && (r * inv) % n == 1
  {
    if rInv.Some? {
      var r := ModInv(rInv.value, n).value;
      assert r * rInv.value == rInv.value * r;
    }
  }

  /** The protocol round trip. Blinding succeeds as soon as the encoding and the factor are units;
      the signer then signs, and finalizing never fails and yields the root of the encoding, which
      mentions neither the blinding factor nor the signer's own `z`. */
  lemma RoundTrip(h: Bytes -> Digest48, key: PrivateKey, prepared: Bytes, variant: Variant, salt: Option<Bytes>,
                  rInv: Option<int>, drawnSalt: Bytes, drawnR: nat, z: nat, em: Bytes)
    requires key.Valid() && key.N() > 1 && |drawnSalt| == variant.saltLen && 0 < drawnR < key.N()
    requires salt.Some? ==> |salt.value| == variant.saltLen
    requires EncodeFor(h, key.N(), prepared, if salt.Some? then salt.value else drawnSalt) == Ok(em)
    requires Gcd(Os2ip(em), key.N()) == 1 && Gcd(z, key.N()) == 1
    requires BlindingPair(key.N(), rInv, drawnR).Ok?
    ensures PowMod(Os2ip(em), key.d, key.N()) < key.N()
    ensures var sent := Blind(h, key.Public(), prepared, variant, salt, rInv, drawnSalt, drawnR);
      && sent.Ok?
      && var signed := SignWith(key, sent.value.0, z);
         && signed.Ok?
         && Finalize(h, key.Public(), prepared, signed.value, sent.value.1, variant)
            == Ok(ToBytes(PowMod(Os2ip(em), key.d, key.N()), key.N()))
  {
    var n, m := key.N(), Os2ip(em);
    var used := if salt.Some? then salt.value else drawnSalt;
    var (r, inv) := BlindingPair(n, rInv, drawnR).value;
    BlindingPairInverse(n, rInv, drawnR);
    var blinded := (m * PowMod(r, key.e, n)) % n;
    BlindSignTotal(key, ToBytes(blinded, n), z);
    UnblindRoot(key, m, r, inv);
    RootVerifies(h, key, prepared, variant, used, ToBytes(PowMod(m, key.d, n), n));
  }

  // ---------------------------------------------------------------- blindness

  /** The blinding inverse under which a message representative `m` is sent as `z`. */
  function BlindingFor(key: PrivateKey, m: nat, z: nat): (rInv: nat)
    requires key.Valid() && key.N() > 1 && Gcd(m, key.N()) == 1 && Gcd(z, key.N()) == 1
  {
    var n := key.N();
    var ratio := z * ModInv(m, n).value;
    RatioRootIsUnit(key, m, z);
    ModInv(PowMod(ratio, key.d, n), n).value
  }

  lemma RatioRootIsUnit(key: PrivateKey, m: nat, z: nat)
    requires key.N() > 1 && Gcd(m, key.N()) == 1 && Gcd(z, key.N()) == 1
    ensures Gcd(PowMod(z * ModInv(m, key.N()).value, key.d, key.N()), key.N()) == 1
  {
    var n := key.N();
    var i := ModInv(m, n).value;
    assert i * m == m * i;
    UnitHasGcdOne(i, n, m);
    ProductOfUnits(z, i, n);
    PowerOfUnit(z * i, key.d, n);
    ModKeepsUnit(Pow(z * i, key.d), n);
  }

  /** Dividing by a unit, one direction at a time. */
  lemma DivideByUnit(m: nat, t: nat, z: nat, n: nat)
    requires n > 1 && Gcd(m, n) == 1 && z < n && t < n && (m * t) % n == z
    ensures t == (z * ModInv(m, n).value) % n
  {
    var i := ModInv(m, n).value;
    SmallMod(z, n);
    SmallMod(t, n);
    UndoUnit(m, i, t, n);
    CongMul(m * t, z, i, i, n);
  }

  lemma MultiplyBack(m: nat, z: nat, n: nat)
    requires n > 1 && Gcd(m, n) == 1 && z < n
    ensures (m * ((z * ModInv(m, n).value) % n)) % n == z
  {
    var i := ModInv(m, n).value;
    SmallMod(z, n);
    MulModMod(m, z * i, n);
    UndoUnit(m, i, z, n);
    assert m * (z * i) == (m * z) * i;
  }

  /** The residue equation of blinding has exactly one solution. */
  lemma BlindingEquation(key: PrivateKey, m: nat, z: nat, r: nat)
    requires key.Valid() && key.N() > 1 && Gcd(m, key.N()) == 1 && z < key.N() && r < key.N()
    ensures (m * PowMod(r, key.e, key.N())) % key.N() == z
       <==> r == PowMod(z * ModInv(m, key.N()).value, key.d, key.N())
  {
    var n := key.N();
    var product := z * ModInv(m, n).value;
    var t := PowMod(r, key.e, n);
    if (m * t) % n == z { DivideByUnit(m, t, z, n); }
    MultiplyBack(m, z, n);
    RootUnique(key, r, product % n);
    ModMod(product, n);
    CongPow(product % n, product, key.d, n);
  }

  lemma InverseOfInverse(x: nat, y: nat, n: nat)
    requires n > 1 && 0 < x < n && 0 < y < n && Gcd(x, n) == 1 && Gcd(y, n) == 1
    ensures ModInv(x, n).value == y <==> ModInv(y, n).value == x
  {
    InverseSymmetric(x, y, n);
    InverseSymmetric(y, x, n);
  }

  lemma InverseSymmetric(x: nat, y: nat, n: nat)
    requires n > 1 && 0 < x < n && 0 < y < n && Gcd(x, n) == 1 && Gcd(y, n) == 1
    ensures ModInv(x, n).value == y ==> ModInv(y, n).value == x
  {
    var i := ModInv(y, n).value;
    if ModInv(x, n).value == y {
      assert y * x == x * y;
      CancelUnit(y, i, x, n);
      SmallMod(i, n);
      SmallMod(x, n);
    }
  }

  /** The blinding inverse `rInv` explains the signer's transcript `z` as this message. */
  ghost predicate Explains(h: Bytes -> Digest48, key: PrivateKey, prepared: Bytes, variant: Variant, salt: Bytes,
                           z: nat, rInv: int)
    requires key.N() > 1 && |salt| == variant.saltLen && z < key.N()
  {
    var sent := Blind(h, key.Public(), prepared, variant, Some(salt), Some(rInv), salt, 1);
    sent.Ok? && sent.value.0 == ToBytes(z, key.N())
  }

  /** When a blinding inverse explains a transcript, as an equation between residues. */
  lemma ExplainsEquation(h: Bytes -> Digest48, key: PrivateKey, prepared: Bytes, variant: Variant, salt: Bytes,
                         z: nat, em: Bytes, i: int)
    requires key.N() > 1 && |salt| == variant.saltLen && z < key.N()
    requires EncodeFor(h, key.N(), prepared, salt) == Ok(em) && Gcd(Os2ip(em), key.N()) == 1
    ensures Explains(h, key, prepared, variant, salt, z, i)
       <==> 0 < i < key.N() && Gcd(i, key.N()) == 1
            && (Os2ip(em) * PowMod(ModInv(i, key.N()).value, key.e, key.N())) % key.N() == z
  {
    var n := key.N();
    assert BlindingPair(n, Some(i), 1).Ok? <==> 0 < i < n && Gcd(i, n) == 1;
  }

  /** The one blinding inverse is the inverse of the root of `z` over `m`. */
  lemma BlindingForInverse(key: PrivateKey, m: nat, z: nat)
    requires key.Valid() && key.N() > 1 && Gcd(m, key.N()) == 1 && Gcd(z, key.N()) == 1
    ensures var rInv := BlindingFor(key, m, z);
      var r := PowMod(z * ModInv(m, key.N()).value, key.d, key.N());
      0 < r < key.N() && 0 < rInv < key.N() && Gcd(r, key.N()) == 1 && Gcd(rInv, key.N()) == 1
      && ModInv(r, key.N()).value == rInv
  {
    var n := key.N();
    var rInv := BlindingFor(key, m, z);
    var r := PowMod(z * ModInv(m, n).value, key.d, n);
    RatioRootIsUnit(key, m, z);
    RootNonZero(r, n);
    assert r * rInv == rInv * r;
    UnitHasGcdOne(rInv, n, r);
  }

  /** Exactly one blinding inverse explains a transcript as a given message. */
  lemma UniqueExplanation(h: Bytes -> Digest48, key: PrivateKey, prepared: Bytes, variant: Variant, salt: Bytes,
                          z: nat, em: Bytes, i: int)
    requires key.Valid() && key.N() > 1 && |salt| == variant.saltLen
    requires EncodeFor(h, key.N(), prepared, salt) == Ok(em) && Gcd(Os2ip(em), key.N()) == 1
    requires 0 < z < key.N() && Gcd(z, key.N()) == 1
    ensures 0 < BlindingFor(key, Os2ip(em), z) < key.N()
    ensures Explains(h, key, prepared, variant, salt, z, i) <==> i == BlindingFor(key, Os2ip(em), z)
  {
    var n, m := key.N(), Os2ip(em);
    BlindingForInverse(key, m, z);
    ExplainsEquation(h, key, prepared, variant, salt, z, em, i);
    if 0 < i < n && Gcd(i, n) == 1 {
      BlindingEquation(key, m, z, ModInv(i, n).value);
      InverseOfInverse(i, PowMod(z * ModInv(m, n).value, key.d, n), n);
    }
  }

  /** Perfect blindness: every transcript is explained as every message by exactly one blinding
      inverse, and unblinding the signer's answer with it gives that message's signature. */
  lemma PerfectBlindness(h: Bytes -> Digest48, key: PrivateKey, prepared: Bytes, variant: Variant, salt: Bytes,
                         z: nat, em: Bytes)
    requires key.Valid() && key.N() > 1 && |salt| == variant.saltLen
    requires EncodeFor(h, key.N(), prepared, salt) == Ok(em) && Gcd(Os2ip(em), key.N()) == 1
    requires 0 < z < key.N() && Gcd(z, key.N()) == 1
    ensures PowMod(Os2ip(em), key.d, key.N()) < key.N()
    ensures var rInv := BlindingFor(key, Os2ip(em), z);
      && 0 < rInv < key.N()
      && (forall i: int :: Explains(h, key, prepared, variant, salt, z, i) <==> i == rInv)
      && var signed := HonestSignature(key, ToBytes(z, key.N()));
         && signed.Ok?
         && Finalize(h, key.Public(), prepared, signed.value, ToBytes(rInv, key.N()), variant)
            == Ok(ToBytes(PowMod(Os2ip(em), key.d, key.N()), key.N()))
  {
    forall i: int
      ensures Explains(h, key, prepared, variant, salt, z, i) <==> i == BlindingFor(key, Os2ip(em), z)
    {
      UniqueExplanation(h, key, prepared, variant, salt, z, em, i);
    }
    UniqueExplanation(h, key, prepared, variant, salt, z, em, 0);
    TranscriptFinalizes(h, key, prepared, variant, salt, z, em);
  }

  lemma TranscriptFinalizes(h: Bytes -> Digest48, key: PrivateKey, prepared: Bytes, variant: Variant, salt: Bytes,
                            z: nat, em: Bytes)
    requires key.Valid() && key.N() > 1 && |salt| == variant.saltLen
    requires EncodeFor(h, key.N(), prepared, salt) == Ok(em) && Gcd(Os2ip(em), key.N()) == 1
    requires 0 < z < key.N() && Gcd(z, key.N()) == 1
    ensures BlindingFor(key, Os2ip(em), z) < key.N()
    ensures HonestSignature(key, ToBytes(z, key.N())).Ok?
    ensures Finalize(h, key.Public(), prepared, HonestSignature(key, ToBytes(z, key.N())).value,
                     ToBytes(BlindingFor(key, Os2ip(em), z), key.N()), variant)
         == Ok(ToBytes(PowMod(Os2ip(em), key.d, key.N()), key.N()))
  {
    var n, m := key.N(), Os2ip(em);
    var r := PowMod(z * ModInv(m, n).value, key.d, n);
    RatioRootIsUnit(key, m, z);
    BlindingEquation(key, m, z, r);
    UnblindRoot(key, m, r, BlindingFor(key, m, z));
    RootVerifies(h, key, prepared, variant, salt, ToBytes(PowMod(m, key.d, n), n));
  }

  lemma RootNonZero(r: nat, n: nat)
    requires n > 1 && r < n && Gcd(r, n) == 1
    ensures r > 0
  {
    var i := ModInv(r, n).value;
    if r == 0 {
      assert r * i == 0;
      SmallMod(0, n);
    }
  }
}
