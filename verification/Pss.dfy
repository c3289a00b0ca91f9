/** The PSS message encoding with SHA-384 and MGF1: sections 9.1.1, 9.1.2 and appendix B.2.1
    of RFC 8017. The hash is an arbitrary function to 48 bytes. */
module Pss {
  import opened Wrappers
  import opened Modular
  import opened Bytes

  const H_LEN := 48

  datatype Error =
    | EncodingError
    | InvalidInput
    | BlindingError
    | UnexpectedInputSize
    | SigningFailure
    | InvalidSignature
    | OverflowError

  // ---------------------------------------------------------------- MGF1

  /** How many hash blocks a mask of `length` bytes takes. */
  function BlockCount(length: nat): nat {
    (length + H_LEN - 1) / H_LEN
  }

  /** The counter is four bytes wide. */
  predicate CounterFits(length: nat) {
    BlockCount(length) <= Pow(256, 4)
  }

  lemma BlockInRange(i: nat, length: nat)
    requires CounterFits(length) && i < length
    ensures i / H_LEN < BlockCount(length) <= Pow(256, 4)
  {
  }

  /** Byte `i` of the mask is byte `i % 48` of the hash of the seed and counter `i / 48`. */
  function Mgf1(h: Bytes -> Digest48, seed: Bytes, length: nat): (mask: Bytes)
    requires CounterFits(length)
    ensures |mask| == length
  {
    seq(length, i requires 0 <= i < length =>
      BlockInRange(i, length);
      h(seed + I2osp(i / H_LEN, 4))[i % H_LEN])
  }

  /** The source's loop: append whole hash blocks, then cut to length. */
  method Mgf1Blocks(h: Bytes -> Digest48, seed: Bytes, length: nat) returns (mask: Result<Bytes, Error>)
    ensures mask == if CounterFits(length) then Ok(Mgf1(h, seed, length)) else Err(OverflowError)
  {
    var out: Bytes := [];
    var counter := 0;
    while counter < BlockCount(length)
      invariant counter <= BlockCount(length) && counter <= Pow(256, 4)
      invariant |out| == H_LEN * counter
      invariant forall i :: 0 <= i < |out| ==>
        i / H_LEN < Pow(256, 4) && out[i] == h(seed + I2osp(i / H_LEN, 4))[i % H_LEN]
    {
      if counter >= Pow(256, 4) {
        return Err(OverflowError);
      }
      var digest := h(seed + I2osp(counter, 4));
      forall i | |out| <= i < |out| + H_LEN
        ensures i / H_LEN == counter && i % H_LEN == i - |out|
      {
        assert i == H_LEN * counter + (i - |out|);
      }
      out := out + digest;
      counter := counter + 1;
    }
    assert length <= |out|;
    mask := Ok(out[..length]);
    assert out[..length] == Mgf1(h, seed, length);
  }

  // ---------------------------------------------------------------- encoding

  /** The eight zero bytes, the message hash and the salt that are hashed into `H`. */
  function SaltedHash(h: Bytes -> Digest48, msg: Bytes, salt: Bytes): Digest48 {
    h(Zeros(8) + h(msg) + salt)
  }

  function DataBlock(emLen: nat, salt: Bytes): (db: Bytes)
    requires emLen >= H_LEN + |salt| + 2
    ensures |db| == emLen - H_LEN - 1
  {
    Zeros(emLen - |salt| - H_LEN - 2) + [1] + salt
  }

  function ExcessBits(emBits: nat): (excess: nat)
    ensures excess < 8
  {
    8 * BytesFor(emBits) - emBits
  }

  /** Clear the excess high bits of the first byte. */
  function MaskFirst(s: Bytes, excess: nat): (r: Bytes)
    requires excess < 8 && s != []
    ensures |r| == |s|
  {
    s[0 := MaskLow(s[0], excess)]
  }

  /** Xor with the mask grown from the hash, then drop the excess bits. */
  function Masked(h: Bytes -> Digest48, block: Bytes, digest: Digest48, excess: nat): (r: Bytes)
    requires block != [] && CounterFits(|block|) && excess < 8
    ensures |r| == |block|
  {
    MaskFirst(XorSeq(block, Mgf1(h, digest, |block|)), excess)
  }

  /** EMSA-PSS-ENCODE. */
  function Encode(h: Bytes -> Digest48, msg: Bytes, emBits: nat, salt: Bytes): (em: Result<Bytes, Error>) {
    var emLen := BytesFor(emBits);
    if emLen < H_LEN + |salt| + 2 then Err(EncodingError)
    else if !CounterFits(emLen - H_LEN - 1) then Err(OverflowError)
    else
      var digest := SaltedHash(h, msg, salt);
      Ok(Masked(h, DataBlock(emLen, salt), digest, ExcessBits(emBits)) + digest + [0xbc])
  }

  lemma NoExcessKeepsByte(b: byte)
    ensures MaskLow(b, 0) == b
  {
    EightDoublings();
    SmallMod(b, 256);
  }

  /** The source's encoder: xor into a buffer, then mask its first byte in place. */
  method EmsaPssEncode(h: Bytes -> Digest48, msg: Bytes, emBits: nat, salt: Bytes)
    returns (em: Result<Bytes, Error>)
    ensures em == Encode(h, msg, emBits, salt)
  {
    var mHash := h(msg);
    var emLen := BytesFor(emBits);
    var sLen := |salt|;
    if emLen < H_LEN + sLen + 2 {
      return Err(EncodingError);
    }
    var mPrime := Zeros(8) + mHash + salt;
    var digest := h(mPrime);
    var ps := Zeros(emLen - sLen - H_LEN - 2);
    var db: Bytes := ps + [1] + salt;
    assert digest == SaltedHash(h, msg, salt) && db == DataBlock(emLen, salt);
    var dbMask := Mgf1Blocks(h, digest, emLen - H_LEN - 1);
    if dbMask.Err? {
      return Err(dbMask.error);
    }
    var maskedDb := XorMasked(db, dbMask.value, 8 * emLen - emBits);
    em := Ok(maskedDb + digest + [0xbc]);
  }

  /** The buffer part of the encoder: xor byte by byte, then clear the excess bits in place. */
  method XorMasked(db: Bytes, dbMask: Bytes, excessBits: nat) returns (r: Bytes)
    requires |db| == |dbMask| && db != [] && excessBits < 8
    ensures r == MaskFirst(XorSeq(db, dbMask), excessBits)
  {
    var maskedDb := new byte[|db|];
    for i := 0 to |db|
      invariant forall j :: 0 <= j < i ==> maskedDb[j] == Xor(db[j], dbMask[j])
    {
      maskedDb[i] := Xor(db[i], dbMask[i]);
    }
    ghost var plain := maskedDb[..];
    assert plain == XorSeq(db, dbMask);
    if excessBits != 0 {
      maskedDb[0] := MaskLow(maskedDb[0], excessBits);
    }
    NoExcessKeepsByte(plain[0]);
    r := maskedDb[..];
  }

  // ---------------------------------------------------------------- verification

  /** EMSA-PSS-VERIFY for a fixed salt length: the recovered salt, or `None` for "inconsistent". */
  function Recover(h: Bytes -> Digest48, msg: Bytes, em: Bytes, emBits: nat, sLen: nat): Option<Bytes>
    requires |em| == BytesFor(emBits)
  {
    var emLen := |em|;
    var dbLen := emLen - H_LEN - 1;
    if emLen < H_LEN + sLen + 2 || em[emLen - 1] != 0xbc || !CounterFits(dbLen) then None
    else RecoverSalt(h, msg, em[..dbLen], em[dbLen..emLen - 1], ExcessBits(emBits), sLen)
  }

  /** The steps of the verification that follow the split into masked data block and hash. */
  function RecoverSalt(h: Bytes -> Digest48, msg: Bytes, block: Bytes, digest: Digest48, excess: nat,
                       sLen: nat): Option<Bytes>
    requires |block| > sLen && CounterFits(|block|) && excess < 8
  {
    if block[0] != MaskLow(block[0], excess) then None
    else
      SaltOf(h, msg, Masked(h, block, digest, excess), digest, sLen)
  }

  function SaltOf(h: Bytes -> Digest48, msg: Bytes, db: Bytes, digest: Digest48, sLen: nat): Option<Bytes>
    requires |db| > sLen
  {
    var pad := |db| - sLen - 1;
    if db[..pad] != Zeros(pad) || db[pad] != 1 then None
    else if SaltedHash(h, msg, db[pad + 1..]) != digest then None
    else Some(db[pad + 1..])
  }

  /** Masking a block whose first byte has no excess bits twice gives it back;
      the masked block has no excess bits either. */
  lemma MaskingIsInvolution(h: Bytes -> Digest48, block: Bytes, digest: Digest48, excess: nat)
    requires block != [] && CounterFits(|block|) && excess < 8 && block[0] < Pow(2, 8 - excess)
    ensures Masked(h, Masked(h, block, digest, excess), digest, excess) == block
    ensures Masked(h, block, digest, excess)[0] < Pow(2, 8 - excess)
    ensures MaskLow(Masked(h, block, digest, excess)[0], excess) == Masked(h, block, digest, excess)[0]
  {
    var mask := Mgf1(h, digest, |block|);
    var masked := Masked(h, block, digest, excess);
    MaskLowBelow(Xor(block[0], mask[0]), excess);
    UnmaskByte(block[0], mask[0], excess);
    forall i | 0 < i < |block|
      ensures Masked(h, masked, digest, excess)[i] == block[i]
    {
      UnmaskFullByte(block[i], mask[i]);
    }
  }

  lemma MaskLowBelow(b: byte, excess: nat)
    requires excess < 8
    ensures MaskLow(b, excess) < Pow(2, 8 - excess)
    ensures MaskLow(MaskLow(b, excess), excess) == MaskLow(b, excess)
  {
    PowPositive(2, 8 - excess);
    ModMod(b, Pow(2, 8 - excess));
  }

  /** A byte of zero or one, as the data block starts, has no excess bits. */
  lemma FirstDataByteSmall(emLen: nat, salt: Bytes, excess: nat)
    requires emLen >= H_LEN + |salt| + 2 && excess < 8
    ensures DataBlock(emLen, salt)[0] < Pow(2, 8 - excess)
  {
    PowMonotone(2, 1, 8 - excess);
    assert Pow(2, 1) == 2;
  }

  /** Verification of a message given by its three parts. */
  lemma RecoverFromParts(h: Bytes -> Digest48, msg: Bytes, block: Bytes, digest: Digest48, emBits: nat, sLen: nat)
    requires |block| + H_LEN + 1 == BytesFor(emBits) && |block| > sLen && CounterFits(|block|)
    ensures Recover(h, msg, block + digest + [0xbc], emBits, sLen)
         == RecoverSalt(h, msg, block, digest, ExcessBits(emBits), sLen)
  {
    var em := block + digest + [0xbc];
    PartsOf(block, digest);
  }

  lemma PartsOf(block: Bytes, digest: Digest48)
    ensures var em := block + digest + [0xbc];
      && |em| == |block| + H_LEN + 1
      && em[..|block|] == block
      && em[|block|..|em| - 1] == digest
      && em[|em| - 1] == 0xbc
  {
  }

  lemma DataBlockParts(emLen: nat, salt: Bytes)
    requires emLen >= H_LEN + |salt| + 2
    ensures var db := DataBlock(emLen, salt);
      var pad := |db| - |salt| - 1;
      db[..pad] == Zeros(pad) && db[pad] == 1 && db[pad + 1..] == salt
  {
  }

  /** The masked data block starts with no excess bits and gives its salt back. */
  lemma BlockRoundTrip(h: Bytes -> Digest48, msg: Bytes, emLen: nat, salt: Bytes, excess: nat)
    requires emLen >= H_LEN + |salt| + 2 && CounterFits(emLen - H_LEN - 1) && excess < 8
    ensures var digest := SaltedHash(h, msg, salt);
      var block := Masked(h, DataBlock(emLen, salt), digest, excess);
      block[0] < Pow(2, 8 - excess) && RecoverSalt(h, msg, block, digest, excess, |salt|) == Some(salt)
  {
    FirstDataByteSmall(emLen, salt, excess);
    MaskingIsInvolution(h, DataBlock(emLen, salt), SaltedHash(h, msg, salt), excess);
    DataBlockParts(emLen, salt);
  }

  /** Every encoding has the promised length, is below `2^emBits`, and verifies to its own salt. */
  lemma EncodeThenVerify(h: Bytes -> Digest48, msg: Bytes, emBits: nat, salt: Bytes, em: Bytes)
    requires Encode(h, msg, emBits, salt) == Ok(em)
    ensures |em| == BytesFor(emBits)
    ensures Os2ip(em) < Pow(2, emBits)
    ensures Recover(h, msg, em, emBits, |salt|) == Some(salt)
  {
    var emLen, digest := BytesFor(emBits), SaltedHash(h, msg, salt);
    BuiltVerifies(h, msg, emBits, salt, digest, Masked(h, DataBlock(emLen, salt), digest, ExcessBits(emBits)));
  }

  lemma BuiltVerifies(h: Bytes -> Digest48, msg: Bytes, emBits: nat, salt: Bytes, digest: Digest48, block: Bytes)
    requires BytesFor(emBits) >= H_LEN + |salt| + 2 && CounterFits(BytesFor(emBits) - H_LEN - 1)
    requires digest == SaltedHash(h, msg, salt)
    requires block == Masked(h, DataBlock(BytesFor(emBits), salt), digest, ExcessBits(emBits))
    ensures |block + digest + [0xbc]| == BytesFor(emBits) && Os2ip(block + digest + [0xbc]) < Pow(2, emBits)
    ensures Recover(h, msg, block + digest + [0xbc], emBits, |salt|) == Some(salt)
  {
    BlockRoundTrip(h, msg, BytesFor(emBits), salt, ExcessBits(emBits));
    EncodedBound(block, digest, emBits);
    RecoverFromParts(h, msg, block, digest, emBits, |salt|);
  }

  lemma EncodedBound(block: Bytes, digest: Digest48, emBits: nat)
    requires |block| + H_LEN + 1 == BytesFor(emBits) && block != [] && block[0] < Pow(2, 8 - ExcessBits(emBits))
    ensures Os2ip(block + digest + [0xbc]) < Pow(2, emBits)
  {
    var em := block + digest + [0xbc];
    assert em[0] == block[0];
    LeadingByteBound(em, emBits);
  }

  lemma LeadingByteBound(em: Bytes, emBits: nat)
    requires em != [] && |em| == BytesFor(emBits) && em[0] < Pow(2, 8 - ExcessBits(emBits))
    ensures Os2ip(em) < Pow(2, emBits)
  {
    var rest := em[1..];
    assert em == [em[0]] + rest;
    Os2ipConcat([em[0]], rest);
    assert Os2ip([em[0]]) == em[0] by { assert [em[0]][..0] == []; }
    Os2ipBound(rest);
    Pow256(|rest|);
    var j := 8 - ExcessBits(emBits);
    assert emBits == j + 8 * |rest|;
    PowAdd(2, j, 8 * |rest|);
    LeadingDigit(em[0], Pow(2, 8 * |rest|), Pow(2, j), Os2ip(rest));
  }

  lemma LeadingDigit(top: int, weight: int, bound: int, rest: int)
    requires 0 <= rest < weight && top < bound
    ensures top * weight + rest < bound * weight
  {
    MulMonotone(weight, top + 1, bound);
  }

  /** Conversely, whatever verifies with some salt is the encoding with that salt. */
  lemma VerifyThenEncode(h: Bytes -> Digest48, msg: Bytes, em: Bytes, emBits: nat, sLen: nat)
    requires |em| == BytesFor(emBits) && Recover(h, msg, em, emBits, sLen).Some?
    ensures var salt := Recover(h, msg, em, emBits, sLen).value;
      |salt| == sLen && Encode(h, msg, emBits, salt) == Ok(em)
  {
    var emLen, excess := |em|, ExcessBits(emBits);
    var dbLen := emLen - H_LEN - 1;
    var block, digest := em[..dbLen], em[dbLen..emLen - 1];
    var db := Masked(h, block, digest, excess);
    assert em == block + digest + [0xbc];
    RebuildDataBlock(db, emLen, sLen);
    MaskLowBelow(block[0], excess);
    MaskingIsInvolution(h, block, digest, excess);
  }

  lemma RebuildDataBlock(db: Bytes, emLen: nat, sLen: nat)
    requires emLen >= H_LEN + sLen + 2 && |db| == emLen - H_LEN - 1
    requires db[..|db| - sLen - 1] == Zeros(|db| - sLen - 1) && db[|db| - sLen - 1] == 1
    ensures db == DataBlock(emLen, db[|db| - sLen..])
  {
    assert db == db[..|db| - sLen - 1] + [db[|db| - sLen - 1]] + db[|db| - sLen..];
  }

  // ---------------------------------------------------------------- what an encoding contains

  /** When a message can be encoded: there is room for hash, salt and two more bytes, and the mask needs no
      more blocks than its counter can number. */
  lemma EncodeExact(h: Bytes -> Digest48, msg: Bytes, emBits: nat, salt: Bytes)
    ensures var emLen := (emBits + 7) / 8;
      Encode(h, msg, emBits, salt).Ok? <==> emLen >= |salt| + 50 && (emLen - 49 + 47) / 48 <= Pow(256, 4)
  {
  }

  /** Byte `i` of the data block before masking: zeros, a one, and the salt at its end. */
  function DataByte(dbLen: nat, salt: Bytes, i: nat): byte
    requires i < dbLen && dbLen > |salt|
  {
    if i < dbLen - |salt| - 1 then 0 else if i == dbLen - |salt| - 1 then 1 else salt[i - (dbLen - |salt|)]
  }

  /** Byte `i` of the mask grown from a hash. */
  function MaskByte(h: Bytes -> Digest48, digest: Digest48, i: nat): byte
    requires i / 48 < Pow(256, 4)
  {
    h(digest + I2osp(i / 48, 4))[i % 48]
  }

  /** What lies where in an encoding: the trailer byte, before it the hash of eight zero bytes, the hash of the
      message and the salt, and before that the data block under its mask, with the excess bits cleared. */
  lemma EncodingLayout(h: Bytes -> Digest48, msg: Bytes, emBits: nat, salt: Bytes, em: Bytes)
    requires Encode(h, msg, emBits, salt) == Ok(em)
    ensures |em| == (emBits + 7) / 8 && |em| >= |salt| + 50
    ensures em[|em| - 1] == 0xbc && em[|em| - 49..|em| - 1] == h(Zeros(8) + h(msg) + salt)
    ensures forall i :: 0 < i < |em| - 49 ==>
      i / 48 < Pow(256, 4)
      && em[i] == Xor(DataByte(|em| - 49, salt, i), MaskByte(h, h(Zeros(8) + h(msg) + salt), i))
    ensures Pow(256, 4) > 0
    ensures em[0] == MaskLow(Xor(DataByte(|em| - 49, salt, 0), MaskByte(h, h(Zeros(8) + h(msg) + salt), 0)),
                             8 * |em| - emBits)
  {
    var emLen := BytesFor(emBits);
    var dbLen := emLen - 49;
    var db, digest := DataBlock(emLen, salt), h(Zeros(8) + h(msg) + salt);
    PowPositive(256, 4);
    PartsOf(Masked(h, db, digest, ExcessBits(emBits)), digest);
    forall i | 0 <= i < dbLen
      ensures i / 48 < Pow(256, 4)
      ensures XorSeq(db, Mgf1(h, digest, dbLen))[i] == Xor(DataByte(dbLen, salt, i), MaskByte(h, digest, i))
    {
      BlockInRange(i, dbLen);
    }
  }

  /** A mask of fewer than 12288 bytes has its block numbers in the last byte of the counter. */
  lemma CounterBytes(counter: nat)
    requires counter < 256
    ensures counter < Pow(256, 4) && I2osp(counter, 4) == [0, 0, 0, counter]
  {
    PowMonotone(256, 1, 4);
    assert Pow(256, 1) == 256;
    assert I2osp(counter, 4) == [] + [0] + [0] + [0] + [counter];
  }

  /** What two messages with one encoding, and so with one recovered salt, exhibit if they differ. */
  ghost predicate MessagesCollide(h: Bytes -> Digest48, a: Bytes, b: Bytes, salt: Bytes) {
    || (a != b && h(a) == h(b))
    || (Zeros(8) + h(a) + salt != Zeros(8) + h(b) + salt && h(Zeros(8) + h(a) + salt) == h(Zeros(8) + h(b) + salt))
  }

  /** An encoding binds its message: no encoding verifies for two messages, unless two hash inputs collide. */
  lemma EncodingBinds(h: Bytes -> Digest48, a: Bytes, b: Bytes, em: Bytes, emBits: nat, sLen: nat)
    requires |em| == BytesFor(emBits)
    requires Recover(h, a, em, emBits, sLen).Some? && Recover(h, b, em, emBits, sLen).Some?
    ensures Recover(h, a, em, emBits, sLen) == Recover(h, b, em, emBits, sLen)
    ensures a == b || MessagesCollide(h, a, b, Recover(h, a, em, emBits, sLen).value)
  {
    var salt := Recover(h, a, em, emBits, sLen).value;
    if h(a) != h(b) {
      assert (Zeros(8) + h(a) + salt)[8..56] == h(a) && (Zeros(8) + h(b) + salt)[8..56] == h(b);
    }
  }
}
