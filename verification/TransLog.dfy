/** The hash-chained key transparency log: canonical record bytes, appending, verifying
    a chain, and checking that a log extends a pinned view. */
module TransLog {
  import opened Wrappers
  import opened Modular
  import opened Bytes

  type Hash = Bytes -> Digest32

  const GENESIS_PREV: Digest32 := Zeros(32)
  const SCOPES := [13, 16, 18, 21]

  /** A status string; everything outside the three known ones is `Other`. */
  datatype Status = Active | Retired | Revoked | Other(name: string) {
    predicate Known() { !Other? }

    function Code(): byte
      requires Known()
    {
      match this case Active => 1 case Retired => 2 case Revoked => 3
    }
  }

  datatype LogError =
    | UnknownStatus
    | UnknownScope
    | BadKeyId
    | FieldOverflow
    | BrokenAt(index: nat)
    | OverflowAt(index: nat)
    | Rollback
    | Fork

  /** The fields a record's hash covers, apart from the previous hash. */
  datatype Body = Body(seqNo: int, ts: int, scope: int, epoch: int, keyId: Bytes, spki: Bytes,
                       notBefore: int, notAfter: int, status: Status)

  datatype LogRecord = LogRecord(body: Body, prevHash: Bytes, recordHash: Bytes)

  type Log = seq<LogRecord>

  predicate Unsigned(v: int, len: nat) {
    0 <= v < Pow(256, len)
  }

  /** The fields that `to_bytes` and `bytes([..])` can write. */
  predicate Encodable(b: Body) {
    && Unsigned(b.seqNo, 8) && Unsigned(b.ts, 8) && 0 <= b.scope < 256 && Unsigned(b.epoch, 4)
    && Unsigned(|b.spki|, 4) && Unsigned(b.notBefore, 8) && Unsigned(b.notAfter, 8)
  }

  /** `canonical_bytes`, where it does not raise. */
  function Canonical(b: Body): Bytes
    requires Encodable(b) && b.status.Known()
  {
    Front(b) + (b.keyId + Tail(b))
  }

  /** The part of the canonical bytes before the key id. */
  function Front(b: Body): (s: Bytes)
    requires Encodable(b)
    ensures |s| == 21
  {
    I2osp(b.seqNo, 8) + (I2osp(b.ts, 8) + ([b.scope] + I2osp(b.epoch, 4)))
  }

  /** The part of the canonical bytes after the key id. */
  function Tail(b: Body): Bytes
    requires Encodable(b) && b.status.Known()
  {
    I2osp(|b.spki|, 4) + (b.spki + End(b))
  }

  function End(b: Body): Bytes
    requires Encodable(b) && b.status.Known()
  {
    I2osp(b.notBefore, 8) + (I2osp(b.notAfter, 8) + [b.status.Code()])
  }

  /** Where each field lies; everything after the key id is found relative to its end. */
  lemma CanonicalLayout(b: Body)
    requires Encodable(b) && b.status.Known()
    ensures var s, k := Canonical(b), 21 + |b.keyId|;
      && |s| == k + |b.spki| + 21
      && s[..8] == I2osp(b.seqNo, 8) && s[8..16] == I2osp(b.ts, 8) && s[16] == b.scope && s[17..21] == I2osp(b.epoch, 4)
      && s[21..k] == b.keyId && s[k..k + 4] == I2osp(|b.spki|, 4) && s[k + 4..k + 4 + |b.spki|] == b.spki
      && s[k + 4 + |b.spki|..] == I2osp(b.notBefore, 8) + I2osp(b.notAfter, 8)
                                  + [if b.status.Active? then 1 else if b.status.Retired? then 2 else 3]
  {
    var front, end := Front(b), End(b);
    assert Tail(b) == I2osp(|b.spki|, 4) + (b.spki + end);
    assert Canonical(b)[..21] == front;
    assert front[..8] == I2osp(b.seqNo, 8) && front[8..16] == I2osp(b.ts, 8) && front[17..21] == I2osp(b.epoch, 4);
    assert end == I2osp(b.notBefore, 8) + I2osp(b.notAfter, 8) + [b.status.Code()];
  }

  lemma EightBytes()
    ensures Pow(256, 2) == 0x1_0000 && Pow(256, 4) == 0x1_0000_0000 && Pow(256, 8) == 0x1_0000_0000_0000_0000
  {
    assert Pow(256, 2) == 0x1_0000 by { assert Pow(256, 1) == 256; }
    PowAdd(256, 2, 2);
    PowAdd(256, 4, 4);
  }

  /** What can be written: sequence number and times in eight bytes, the epoch and the length of the key in
      four, the scope in one. */
  lemma EncodableExact(b: Body)
    ensures Encodable(b) <==>
      && 0 <= b.seqNo < 0x1_0000_0000_0000_0000 && 0 <= b.ts < 0x1_0000_0000_0000_0000
      && 0 <= b.scope <= 0xFF && 0 <= b.epoch < 0x1_0000_0000 && |b.spki| < 0x1_0000_0000
      && 0 <= b.notBefore < 0x1_0000_0000_0000_0000 && 0 <= b.notAfter < 0x1_0000_0000_0000_0000
  {
    EightBytes();
  }

  lemma FrontInjective(a: Body, b: Body)
    requires Encodable(a) && Encodable(b) && Front(a) == Front(b)
    ensures a.seqNo == b.seqNo && a.ts == b.ts && a.scope == b.scope && a.epoch == b.epoch
  {
    var a2, b2 := [a.scope] + I2osp(a.epoch, 4), [b.scope] + I2osp(b.epoch, 4);
    SplitConcat(I2osp(a.seqNo, 8), I2osp(a.ts, 8) + a2, I2osp(b.seqNo, 8), I2osp(b.ts, 8) + b2);
    SplitConcat(I2osp(a.ts, 8), a2, I2osp(b.ts, 8), b2);
    SplitConcat([a.scope], I2osp(a.epoch, 4), [b.scope], I2osp(b.epoch, 4));
    assert [a.scope][0] == [b.scope][0];
    I2ospInjective(a.seqNo, b.seqNo, 8);
    I2ospInjective(a.ts, b.ts, 8);
    I2ospInjective(a.epoch, b.epoch, 4);
  }

  lemma EndInjective(a: Body, b: Body)
    requires Encodable(a) && Encodable(b) && a.status.Known() && b.status.Known() && End(a) == End(b)
    ensures a.notBefore == b.notBefore && a.notAfter == b.notAfter && a.status == b.status
  {
    var a2, b2 := I2osp(a.notAfter, 8) + [a.status.Code()], I2osp(b.notAfter, 8) + [b.status.Code()];
    SplitConcat(I2osp(a.notBefore, 8), a2, I2osp(b.notBefore, 8), b2);
    SplitConcat(I2osp(a.notAfter, 8), [a.status.Code()], I2osp(b.notAfter, 8), [b.status.Code()]);
    assert [a.status.Code()][0] == [b.status.Code()][0];
    I2ospInjective(a.notBefore, b.notBefore, 8);
    I2ospInjective(a.notAfter, b.notAfter, 8);
  }

  lemma TailInjective(a: Body, b: Body)
    requires Encodable(a) && Encodable(b) && a.status.Known() && b.status.Known()
    requires Tail(a) == Tail(b)
    ensures a.spki == b.spki && a.notBefore == b.notBefore && a.notAfter == b.notAfter && a.status == b.status
  {
    SplitConcat(I2osp(|a.spki|, 4), a.spki + End(a), I2osp(|b.spki|, 4), b.spki + End(b));
    I2ospInjective(|a.spki|, |b.spki|, 4);
    SplitConcat(a.spki, End(a), b.spki, End(b));
    EndInjective(a, b);
  }

  /** The canonical bytes determine the position, and with equally long key ids the whole record. */
  lemma CanonicalInjective(a: Body, b: Body)
    requires Encodable(a) && Encodable(b) && a.status.Known() && b.status.Known()
    requires Canonical(a) == Canonical(b)
    ensures a.seqNo == b.seqNo
    ensures a == b <==> |a.keyId| == |b.keyId|
  {
    SplitConcat(Front(a), a.keyId + Tail(a), Front(b), b.keyId + Tail(b));
    FrontInjective(a, b);
    if |a.keyId| == |b.keyId| {
      SplitConcat(a.keyId, Tail(a), b.keyId, Tail(b));
      TailInjective(a, b);
    }
  }

  // ---------------------------------------------------------------- chains

  /** The head hash of a log. */
  function Head(records: Log): Bytes {
    if records == [] then GENESIS_PREV else records[|records| - 1].recordHash
  }

  /** The hash that record `i` must point at. */
  function PrevOf(records: Log, i: nat): Bytes
    requires i <= |records|
  {
    if i == 0 then GENESIS_PREV else records[i - 1].recordHash
  }

  /** What is hashed for a record. */
  function Preimage(r: LogRecord): Bytes
    requires Encodable(r.body) && r.body.status.Known()
  {
    r.prevHash + Canonical(r.body)
  }

  /** What the verification loop checks of record number `i` when the previous hash is `prev`;
      a field that cannot be encoded raises as well. */
  predicate GoodRecord(h: Hash, r: LogRecord, i: nat, prev: Bytes) {
    && r.body.seqNo == i
    && r.body.status.Known()
    && r.prevHash == prev
    && Encodable(r.body)
    && r.recordHash == h(Preimage(r))
  }

  /** Record `i` carries its own position, points at its predecessor and has the right hash. */
  predicate Linked(h: Hash, records: Log, i: nat)
    requires i < |records|
  {
    GoodRecord(h, records[i], i, PrevOf(records, i))
  }

  ghost predicate ValidChain(h: Hash, records: Log) {
    forall i :: 0 <= i < |records| ==> Linked(h, records, i)
  }

  /** The progress of the verification loop: the first `n` records are good. */
  ghost predicate GoodUpTo(h: Hash, records: Log, n: nat)
    requires n <= |records|
  {
    n == 0 || (GoodUpTo(h, records, n - 1) && Linked(h, records, n - 1))
  }

  lemma {:induction false} GoodUpToExact(h: Hash, records: Log, n: nat)
    requires n <= |records| && GoodUpTo(h, records, n)
    ensures forall i :: 0 <= i < n ==> Linked(h, records, i)
  {
    if n > 0 { GoodUpToExact(h, records, n - 1); }
  }

  ghost predicate FirstBroken(h: Hash, records: Log, n: nat) {
    n < |records| && !Linked(h, records, n) && forall i :: 0 <= i < n ==> Linked(h, records, i)
  }

  /** Why record `n` is refused: out of place, of unknown status or not linked; or else with a field that
      cannot be written as bytes, which raises another exception; or else with the wrong hash. */
  function Fault(records: Log, n: nat): LogError
    requires n < |records|
  {
    var r := records[n];
    if r.body.seqNo == n && r.body.status.Known() && r.prevHash == PrevOf(records, n) && !Encodable(r.body)
    then OverflowAt(n)
    else BrokenAt(n)
  }

  /** The verification loop. It accepts exactly the valid chains, and names the first bad record and what
      is wrong with it. */
  method VerifyChain(h: Hash, records: Log) returns (r: Result<Bytes, LogError>)
    ensures r.Ok? <==> ValidChain(h, records)
    ensures r.Ok? ==> r.value == Head(records)
    ensures r.Err? ==> exists n :: FirstBroken(h, records, n) && r.error == Fault(records, n)
  {
    var prev: Bytes := GENESIS_PREV;
    for i := 0 to |records|
      invariant prev == PrevOf(records, i)
      invariant GoodUpTo(h, records, i)
    {
      var record := records[i];
      var placed := record.body.seqNo == i && record.body.status.Known() && record.prevHash == prev;
      if !placed || !Encodable(record.body) || record.recordHash != h(prev + Canonical(record.body)) {
        GoodUpToExact(h, records, i);
        assert FirstBroken(h, records, i);
        return Err(if placed && !Encodable(record.body) then OverflowAt(i) else BrokenAt(i));
      }
      prev := record.recordHash;
    }
    GoodUpToExact(h, records, |records|);
    r := Ok(prev);
  }

  /** Record `i` has its own number, a known status, fields that can be written, the hash of the record before
      it, 32 zero bytes for the first, and the hash of that hash and its own bytes. */
  predicate InPlace(h: Hash, records: Log, i: nat)
    requires i < |records|
  {
    var r, prev := records[i], if i == 0 then Zeros(32) else records[i - 1].recordHash;
    && r.body.seqNo == i && r.body.status in {Active, Retired, Revoked} && Encodable(r.body)
    && r.prevHash == prev && r.recordHash == h(prev + Canonical(r.body))
  }

  /** A chain is valid exactly when every record is in place. */
  lemma ChainExact(h: Hash, records: Log)
    ensures ValidChain(h, records) <==> forall i :: 0 <= i < |records| ==> InPlace(h, records, i)
  {
    forall i | 0 <= i < |records|
      ensures Linked(h, records, i) <==> InPlace(h, records, i)
    {
    }
  }

  lemma PrefixValid(h: Hash, records: Log, i: nat)
    requires ValidChain(h, records) && i <= |records|
    ensures ValidChain(h, records[..i])
  {
    forall j | 0 <= j < i
      ensures Linked(h, records[..i], j)
    {
      assert Linked(h, records, j);
    }
  }

  /** A record appended to a log, chained to its head; the caller stores it. */
  function AppendRecord(h: Hash, records: Log, body: Body): (r: Result<LogRecord, LogError>)
    requires body.seqNo == |records|
  {
    if !body.status.Known() then Err(UnknownStatus)
    else if body.scope !in SCOPES then Err(UnknownScope)
    else if |body.keyId| != 32 then Err(BadKeyId)
    else if !Encodable(body) then Err(FieldOverflow)
    else Ok(LogRecord(body, Head(records), h(Head(records) + Canonical(body))))
  }

  /** Which records can be appended, why not, and how the new record is chained. */
  lemma AppendExact(h: Hash, records: Log, body: Body)
    requires body.seqNo == |records|
    ensures var r := AppendRecord(h, records, body);
      var prev := if records == [] then Zeros(32) else records[|records| - 1].recordHash;
      if body.status !in {Active, Retired, Revoked} then r == Err(UnknownStatus)
      else if body.scope !in {13, 16, 18, 21} then r == Err(UnknownScope)
      else if |body.keyId| != 32 then r == Err(BadKeyId)
      else if !Encodable(body) then r == Err(FieldOverflow)
      else r == Ok(LogRecord(body, prev, h(prev + Canonical(body))))
  {
  }

  /** Appending keeps a chain valid. */
  lemma AppendKeepsChain(h: Hash, records: Log, body: Body)
    requires ValidChain(h, records) && body.seqNo == |records| && AppendRecord(h, records, body).Ok?
    ensures ValidChain(h, records + [AppendRecord(h, records, body).value])
  {
    var r := AppendRecord(h, records, body).value;
    var longer := records + [r];
    forall i | 0 <= i < |longer|
      ensures Linked(h, longer, i)
    {
      if i < |records| { assert Linked(h, records, i); }
    }
  }

  // ---------------------------------------------------------------- extension

  /** The check against a pinned view of `pinnedSize` records. */
  method CheckExtension(h: Hash, pinnedSize: nat, pinnedHead: Bytes, records: Log)
    returns (r: Result<Bytes, LogError>)
    ensures r.Ok? <==> Extends(h, pinnedSize, pinnedHead, records)
    ensures r.Ok? ==> r.value == Head(records)
    ensures r.Err? && ValidChain(h, records) ==> r.error == if |records| < pinnedSize then Rollback else Fork
    ensures r.Err? && !ValidChain(h, records) ==>
      exists n :: FirstBroken(h, records, n) && r.error == Fault(records, n)
  {
    var head := VerifyChain(h, records);
    if head.Err? {
      return head;
    }
    if pinnedSize == 0 {
      return head;
    }
    if |records| < pinnedSize {
      return Err(Rollback);
    }
    if records[pinnedSize - 1].recordHash != pinnedHead {
      return Err(Fork);
    }
    return head;
  }

  ghost predicate Extends(h: Hash, pinnedSize: nat, pinnedHead: Bytes, records: Log) {
    && ValidChain(h, records)
    && (pinnedSize == 0 || (pinnedSize <= |records| && records[pinnedSize - 1].recordHash == pinnedHead))
  }

  /** Two different hash inputs, one a record of `a` and one of `b`, with the same hash. */
  ghost predicate CollisionIn(h: Hash, a: Log, b: Log)
    requires ValidChain(h, a) && ValidChain(h, b)
  {
    exists i, j :: 0 <= i < |a| && 0 <= j < |b| && Collides(h, a, i, b, j)
  }

  ghost predicate Collides(h: Hash, a: Log, i: nat, b: Log, j: nat)
    requires ValidChain(h, a) && ValidChain(h, b) && i < |a| && j < |b|
  {
    assert Linked(h, a, i) && Linked(h, b, j);
    Preimage(a[i]) != Preimage(b[j]) && h(Preimage(a[i])) == h(Preimage(b[j]))
  }

  ghost predicate SameKeyIdLengths(a: Log, b: Log, n: nat)
    requires n <= |a| && n <= |b|
  {
    forall i :: 0 <= i < n ==> |a[i].body.keyId| == |b[i].body.keyId|
  }

  lemma PrevIsDigest(h: Hash, records: Log, i: nat)
    requires ValidChain(h, records) && i < |records|
    ensures |PrevOf(records, i)| == 32
  {
    if i > 0 { assert Linked(h, records, i - 1); }
  }

  lemma EqualPreimages(r: LogRecord, s: LogRecord)
    requires Encodable(r.body) && r.body.status.Known() && Encodable(s.body) && s.body.status.Known()
    requires |r.prevHash| == |s.prevHash| && Preimage(r) == Preimage(s)
    ensures r.prevHash == s.prevHash
    ensures r.body.seqNo == s.body.seqNo
    ensures r.body == s.body <==> |r.body.keyId| == |s.body.keyId|
  {
    SplitConcat(r.prevHash, Canonical(r.body), s.prevHash, Canonical(s.body));
    CanonicalInjective(r.body, s.body);
  }

  /** Equal record hashes: the records stand at the same position over the same previous hash,
      and are equal when their key ids are equally long; or the two preimages collide. */
  lemma EqualRecordHashes(h: Hash, a: Log, i: nat, b: Log, j: nat)
    requires ValidChain(h, a) && ValidChain(h, b) && i < |a| && j < |b|
    requires a[i].recordHash == b[j].recordHash && !Collides(h, a, i, b, j)
    ensures i == j
    ensures PrevOf(a, i) == PrevOf(b, j)
    ensures a[i] == b[j] <==> |a[i].body.keyId| == |b[j].body.keyId|
  {
    assert Linked(h, a, i) && Linked(h, b, j);
    PrevIsDigest(h, a, i);
    PrevIsDigest(h, b, j);
    EqualPreimages(a[i], b[j]);
  }

  /** Back along the chain from an equal hash at position `n - 1`. */
  lemma {:induction false} SameHeadAgrees(h: Hash, a: Log, b: Log, n: nat)
    requires ValidChain(h, a) && ValidChain(h, b) && 0 < n <= |a| && n <= |b|
    requires a[n - 1].recordHash == b[n - 1].recordHash && !CollisionIn(h, a, b)
    requires SameKeyIdLengths(a, b, n)
    ensures forall i :: 0 <= i < n ==> a[i] == b[i]
  {
    EqualRecordHashes(h, a, n - 1, b, n - 1);
    if n > 1 {
      SameHeadAgrees(h, a, b, n - 1);
    }
  }

  /** Two verified logs with the same hash at position `n - 1`, unless they exhibit a hash
      collision, agree record for record exactly when their key ids are equally long. */
  lemma SameHeadExact(h: Hash, a: Log, b: Log, n: nat)
    requires ValidChain(h, a) && ValidChain(h, b) && 0 < n <= |a| && n <= |b|
    requires a[n - 1].recordHash == b[n - 1].recordHash && !CollisionIn(h, a, b)
    ensures a[..n] == b[..n] <==> SameKeyIdLengths(a, b, n)
  {
    if SameKeyIdLengths(a, b, n) {
      SameHeadAgrees(h, a, b, n);
    }
    if a[..n] == b[..n] {
      forall i | 0 <= i < n
        ensures |a[i].body.keyId| == |b[i].body.keyId|
      {
        assert a[..n][i] == b[..n][i];
      }
    }
  }

  ghost predicate KeyIdsWellFormed(records: Log) {
    forall i :: 0 <= i < |records| ==> |records[i].body.keyId| == 32
  }

  /** The promise of the pin check: a log that extends the pin of an earlier log has that log as a prefix
      if and only if their key ids are equally long position by position, or the two exhibit a hash
      collision. */
  lemma ExtensionExact(h: Hash, earlier: Log, later: Log)
    requires ValidChain(h, earlier) && Extends(h, |earlier|, Head(earlier), later)
    ensures |earlier| <= |later|
    ensures CollisionIn(h, earlier, later) || (earlier <= later <==> SameKeyIdLengths(earlier, later, |earlier|))
  {
    if earlier != [] && !CollisionIn(h, earlier, later) {
      SameHeadExact(h, earlier, later, |earlier|);
      assert earlier[..|earlier|] == earlier;
    }
  }

  /** In particular with 32-byte key ids, as the issuer's own records have. */
  lemma ExtensionIsPrefix(h: Hash, earlier: Log, later: Log)
    requires ValidChain(h, earlier) && Extends(h, |earlier|, Head(earlier), later)
    requires KeyIdsWellFormed(earlier) && KeyIdsWellFormed(later)
    ensures earlier <= later || CollisionIn(h, earlier, later)
  {
    ExtensionExact(h, earlier, later);
  }

  /** Conversely every valid extension passes the pin check. */
  lemma PrefixExtends(h: Hash, earlier: Log, later: Log)
    requires ValidChain(h, later) && earlier <= later
    ensures Extends(h, |earlier|, Head(earlier), later)
  {
  }

  // ---------------------------------------------------------------- the missing key id check

  /** A longer key id can swallow the length field of its neighbour: when the key bytes of `x`
      themselves read as a length and a rest, shifting the boundary gives the same canonical bytes. */
  lemma ShiftedKeyId(x: Body, rest: Bytes)
    requires Encodable(x) && x.status.Known() && Unsigned(|rest|, 4)
    requires x.spki == I2osp(|rest|, 4) + rest
    ensures Canonical(x) == Canonical(x.(keyId := x.keyId + I2osp(|x.spki|, 4), spki := rest))
  {
    var y := x.(keyId := x.keyId + I2osp(|x.spki|, 4), spki := rest);
    assert Front(x) == Front(y) && End(x) == End(y);
    Regroup(x.keyId, I2osp(|x.spki|, 4), I2osp(|rest|, 4), rest, End(x));
  }

  lemma Regroup(id: Bytes, lenX: Bytes, lenY: Bytes, rest: Bytes, end: Bytes)
    ensures id + (lenX + ((lenY + rest) + end)) == (id + lenX) + (lenY + (rest + end))
  {
  }

  /** Chain verification does not check the length of key ids, and without that the log is
      ambiguous: for every hash, these two logs of one record verify with the same head. */
  lemma AmbiguousWithoutKeyIdLength(h: Hash) returns (a: Log, b: Log)
    ensures |a| == 1 && |b| == 1 && a != b
    ensures ValidChain(h, a) && Extends(h, |a|, Head(a), b) && Head(a) == Head(b)
  {
    var x := Body(0, 0, 13, 1, Zeros(32), I2osp(0, 4) + [], 0, 0, Active);
    var y := x.(keyId := x.keyId + I2osp(|x.spki|, 4), spki := []);
    assert Encodable(x);
    ShiftedKeyId(x, []);
    var hash := h(GENESIS_PREV + Canonical(x));
    a, b := [LogRecord(x, GENESIS_PREV, hash)], [LogRecord(y, GENESIS_PREV, hash)];
    assert Linked(h, a, 0) && Linked(h, b, 0);
    assert |a[0].body.keyId| != |b[0].body.keyId|;
  }
}
