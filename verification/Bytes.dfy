/** Byte strings, big-endian integers (OS2IP and I2OSP, sections 4.1 and 4.2 of RFC 8017),
    bit lengths and the bitwise operations of the PSS encoding. */
module Bytes {
  import opened Modular

  type byte = x: int | 0 <= x < 256
  type Bytes = seq<byte>

  /** The two digest sizes in use: SHA-256 and SHA-384. */
  type Digest32 = b: Bytes | |b| == 32 witness seq(32, i => 0)
  type Digest48 = b: Bytes | |b| == 48 witness seq(48, i => 0)

  function Zeros(n: nat): (z: Bytes)
    ensures |z| == n && forall i :: 0 <= i < n ==> z[i] == 0
  {
    seq(n, i => 0)
  }

  /** The bytes of an ASCII string. */
  function Ascii(s: string): (r: Bytes)
    requires forall i :: 0 <= i < |s| ==> s[i] as int < 128
    ensures |r| == |s|
  {
    seq(|s|, i requires 0 <= i < |s| => s[i] as int)
  }

  // ---------------------------------------------------------------- integers

  /** `int.from_bytes(s, "big")`. */
  function Os2ip(s: Bytes): nat {
    if s == [] then 0 else Os2ip(s[..|s| - 1]) * 256 + s[|s| - 1]
  }

  /** `v.to_bytes(len, "big")`; the guard is the one under which Python raises no OverflowError. */
  function I2osp(v: nat, len: nat): (s: Bytes)
    requires v < Pow(256, len)
    ensures |s| == len
    decreases len, v
  {
    if len == 0 then [] else I2osp(v / 256, len - 1) + [v % 256]
  }

  lemma {:induction false} Os2ipBound(s: Bytes)
    ensures Os2ip(s) < Pow(256, |s|)
  {
    if s != [] { Os2ipBound(s[..|s| - 1]); }
  }

  lemma {:induction false} Os2ipOfI2osp(v: nat, len: nat)
    requires v < Pow(256, len)
    ensures Os2ip(I2osp(v, len)) == v
  {
    if len > 0 {
      Os2ipOfI2osp(v / 256, len - 1);
      var s := I2osp(v, len);
      assert s[..|s| - 1] == I2osp(v / 256, len - 1);
    }
  }

  lemma {:induction false} I2ospOfOs2ip(s: Bytes)
    ensures Os2ip(s) < Pow(256, |s|)
    ensures I2osp(Os2ip(s), |s|) == s
  {
    Os2ipBound(s);
    if s != [] {
      var t := s[..|s| - 1];
      I2ospOfOs2ip(t);
      assert Os2ip(s) / 256 == Os2ip(t);
    }
  }

  /** Big-endian encodings of one length are unambiguous. */
  lemma I2ospInjective(v: nat, w: nat, len: nat)
    requires v < Pow(256, len) && w < Pow(256, len) && I2osp(v, len) == I2osp(w, len)
    ensures v == w
  {
    Os2ipOfI2osp(v, len);
    Os2ipOfI2osp(w, len);
  }

  lemma {:induction false} Os2ipConcat(s: Bytes, t: Bytes)
    ensures Os2ip(s + t) == Os2ip(s) * Pow(256, |t|) + Os2ip(t)
  {
    if t == [] {
      assert s + t == s;
    } else {
      var t' := t[..|t| - 1];
      Os2ipConcat(s, t');
      assert (s + t)[..|s + t| - 1] == s + t';
      assert (Os2ip(s) * Pow(256, |t'|)) * 256 == Os2ip(s) * (256 * Pow(256, |t'|));
    }
  }

  // ---------------------------------------------------------------- bit lengths

  /** `n.bit_length()`. */
  function BitLen(n: nat): nat {
    if n == 0 then 0 else 1 + BitLen(n / 2)
  }

  /** `ceil(bits / 8)` as the source writes it. */
  function BytesFor(bits: nat): nat {
    (bits + 7) / 8
  }

  lemma {:induction false} BitLenBounds(n: nat)
    requires n > 0
    ensures BitLen(n) > 0
    ensures Pow(2, BitLen(n) - 1) <= n < Pow(2, BitLen(n))
  {
    if n > 1 { BitLenBounds(n / 2); }
  }

  /** The bit length is the one number of bits that is just enough. */
  lemma BitLenExact(n: nat, bits: nat)
    requires bits > 0
    ensures Pow(2, bits - 1) <= n < Pow(2, bits) <==> n > 0 && BitLen(n) == bits
  {
    PowPositive(2, bits - 1);
    if n > 0 {
      BitLenBounds(n);
      if BitLen(n) < bits { PowMonotone(2, BitLen(n), bits - 1); }
      if BitLen(n) > bits { PowMonotone(2, bits, BitLen(n) - 1); }
    }
  }

  lemma {:induction false} Pow256(len: nat)
    ensures Pow(256, len) == Pow(2, 8 * len)
  {
    if len > 0 {
      Pow256(len - 1);
      PowAdd(2, 8, 8 * (len - 1));
      assert Pow(2, 8) == 256 by { EightDoublings(); }
    }
  }

  lemma EightDoublings()
    ensures Pow(2, 8) == 256
  {
    assert Pow(2, 4) == 16;
    PowAdd(2, 4, 4);
  }

  /** A modulus, and so everything below it, fits in its own byte length. */
  lemma FitsModulus(n: nat, v: nat)
    requires v <= n
    ensures v < Pow(256, BytesFor(BitLen(n)))
  {
    var k := BytesFor(BitLen(n));
    if n == 0 {
    } else {
      BitLenBounds(n);
      Pow256(k);
      PowMonotone(2, BitLen(n), 8 * k);
    }
  }

  // ---------------------------------------------------------------- bitwise operations

  /** Exclusive or of the low `bits` bits. */
  function XorBits(a: nat, b: nat, bits: nat): nat {
    if bits == 0 then 0 else 2 * XorBits(a / 2, b / 2, bits - 1) + (a + b) % 2
  }

  lemma {:induction false} XorBitsBound(a: nat, b: nat, bits: nat)
    ensures XorBits(a, b, bits) < Pow(2, bits)
  {
    if bits > 0 { XorBitsBound(a / 2, b / 2, bits - 1); }
  }

  function Xor(a: byte, b: byte): byte {
    XorBitsBound(a, b, 8);
    EightDoublings();
    XorBits(a, b, 8)
  }

  /** `a & (0xFF >> excess)`: keep the low `8 - excess` bits. */
  function MaskLow(a: byte, excess: nat): (r: byte)
    requires excess < 8
  {
    PowPositive(2, 8 - excess);
    var m := Pow(2, 8 - excess);
    LowPart(a, m);
    a % m
  }

  lemma LowPart(a: nat, m: int)
    requires m > 0
    ensures 0 <= a % m <= a
  {
    assert a == m * (a / m) + a % m;
    if a / m < 0 {
      MulMonotone(m, a / m, -1);
      assert false;
    }
    MulMonotone(m, 0, a / m);
  }

  lemma {:induction false} XorTwice(a: nat, b: nat, bits: nat)
    requires a < Pow(2, bits)
    ensures XorBits(XorBits(a, b, bits), b, bits) == a
  {
    if bits > 0 {
      var x := XorBits(a / 2, b / 2, bits - 1);
      XorTwice(a / 2, b / 2, bits - 1);
      XorParity(a, b, x);
    }
  }

  lemma XorParity(a: nat, b: nat, x: nat)
    ensures (2 * x + (a + b) % 2) / 2 == x
    ensures (2 * x + (a + b) % 2 + b) % 2 == a % 2
  {
  }

  /** The low `j` bits of an exclusive or depend on the low `j` bits of its operand only. */
  lemma {:induction false} XorLow(a: nat, b: nat, bits: nat, j: nat)
    requires j <= bits
    ensures Pow(2, j) > 0
    ensures XorBits(a % Pow(2, j), b, bits) % Pow(2, j) == XorBits(a, b, bits) % Pow(2, j)
  {
    PowPositive(2, j);
    if j > 0 {
      PowPositive(2, j - 1);
      var m := Pow(2, j - 1);
      XorLow(a / 2, b / 2, bits - 1, j - 1);
      HalveMod(a, m);
      LowParity(a, b, m);
      XorLowStep(a, a % (2 * m), b, bits, m);
    }
  }

  lemma XorLowStep(a: nat, low: nat, b: nat, bits: nat, m: int)
    requires m > 0 && bits > 0 && (low + b) % 2 == (a + b) % 2
    requires XorBits(low / 2, b / 2, bits - 1) % m == XorBits(a / 2, b / 2, bits - 1) % m
    ensures XorBits(low, b, bits) % (2 * m) == XorBits(a, b, bits) % (2 * m)
  {
    DoubleMod(XorBits(a / 2, b / 2, bits - 1), (a + b) % 2, m);
    DoubleMod(XorBits(low / 2, b / 2, bits - 1), (a + b) % 2, m);
  }

  lemma LowParity(a: nat, b: nat, m: int)
    requires m > 0
    ensures (a % (2 * m) + b) % 2 == (a + b) % 2
  {
    HalveMod(a, m);
    CongAdd(a % (2 * m), a, b, b, 2);
  }

  lemma HalveMod(a: nat, m: int)
    requires m > 0
    ensures (a % (2 * m)) / 2 == (a / 2) % m
    ensures (a % (2 * m)) % 2 == a % 2
  {
    var h := a / 2;
    DoubleMod(h, a % 2, m);
  }

  lemma DoubleMod(y: nat, r: nat, m: int)
    requires m > 0 && r < 2
    ensures (2 * y + r) % (2 * m) == 2 * (y % m) + r
  {
    var q := y / m;
    assert 2 * y + r == (2 * m) * q + (2 * (y % m) + r) by { assert (2 * m) * q == 2 * (m * q); }
    ModUnique(2 * y + r, 2 * m, q, 2 * (y % m) + r);
  }

  /** Xor both sides, mask, then undo: the way a PSS verifier recovers the first data byte. */
  lemma UnmaskByte(a: byte, mask: byte, excess: nat)
    requires excess < 8 && a < Pow(2, 8 - excess)
    ensures MaskLow(Xor(MaskLow(Xor(a, mask), excess), mask), excess) == a
  {
    var j := 8 - excess;
    PowPositive(2, j);
    XorLow(Xor(a, mask), mask, 8, j);
    EightDoublings();
    XorTwice(a, mask, 8);
    SmallMod(a, Pow(2, j));
  }

  lemma UnmaskFullByte(a: byte, mask: byte)
    ensures Xor(Xor(a, mask), mask) == a
  {
    EightDoublings();
    XorTwice(a, mask, 8);
  }

  /** Bit `j` of an integer, the lowest first. */
  function Bit(a: nat, j: nat): nat {
    if j == 0 then a % 2 else Bit(a / 2, j - 1)
  }

  /** It is exclusive or: each bit of the result is one exactly when one of the two bits is. */
  lemma {:induction false} XorBitwise(a: nat, b: nat, bits: nat, j: nat)
    requires j < bits
    ensures Bit(XorBits(a, b, bits), j) == if Bit(a, j) == Bit(b, j) then 0 else 1
  {
    var x := XorBits(a / 2, b / 2, bits - 1);
    DoubleParts(x, a, b);
    if j > 0 { XorBitwise(a / 2, b / 2, bits - 1, j - 1); }
  }

  lemma DoubleParts(x: nat, a: nat, b: nat)
    ensures (2 * x + (a + b) % 2) / 2 == x
    ensures (2 * x + (a + b) % 2) % 2 == if a % 2 == b % 2 then 0 else 1
  {
  }

  lemma {:induction false} XorLaws(a: nat, b: nat, bits: nat)
    ensures XorBits(a, b, bits) == XorBits(b, a, bits) && XorBits(a, a, bits) == 0
  {
    if bits > 0 { XorLaws(a / 2, b / 2, bits - 1); }
  }

  function XorSeq(a: Bytes, b: Bytes): (r: Bytes)
    requires |a| == |b|
    ensures |r| == |a| && forall i :: 0 <= i < |a| ==> r[i] == Xor(a[i], b[i])
  {
    seq(|a|, i requires 0 <= i < |a| => Xor(a[i], b[i]))
  }

  // ---------------------------------------------------------------- layouts

  /** Equal concatenations whose first parts have equal length agree part by part. */
  lemma SplitConcat(a: Bytes, b: Bytes, c: Bytes, d: Bytes)
    requires |a| == |c| && a + b == c + d
    ensures a == c && b == d
  {
    assert a == (a + b)[..|a|] && c == (c + d)[..|c|];
    assert b == (a + b)[|a|..] && d == (c + d)[|c|..];
  }
}
