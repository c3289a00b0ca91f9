/** The user agent's side of the log: synchronising under a pin, and the check of the log head
    that relying parties gossip inside their challenges. */
module LogSync {
  import opened Wrappers
  import opened Bytes
  import opened TransLog

  /** The log part of the persisted state. */
  datatype UAState = UAState(logPublicRaw: Bytes, pinnedSize: nat, pinnedHead: Bytes)

  datatype SignedHead = SignedHead(size: int, headHash: Bytes, ts: int, signature: Bytes)

  /** What the issuer serves: its log key, its signed head, and the log. */
  datatype Response = Response(logPublicRaw: Bytes, head: SignedHead, records: Log)

  datatype SyncError = LogKeyChanged | BadHeadSignature | LogCheckFailed(error: LogError) | HeadMismatch

  /** Ed25519 verification: public key, signature, message. */
  type SignatureCheck = (Bytes, Bytes, Bytes) -> bool

  /** The tag zkage/v1/loghead and its terminating zero byte. */
  const LOG_HEAD_TAG: Bytes :=
    [122, 107, 97, 103, 101, 47, 118, 49, 47, 108, 111, 103, 104, 101, 97, 100, 0]

  function HeadBytes(head: SignedHead): Bytes
    requires Unsigned(head.size, 8) && Unsigned(head.ts, 8)
  {
    LOG_HEAD_TAG + I2osp(head.size, 8) + head.headHash + I2osp(head.ts, 8)
  }

  /** Where each field of the signed head bytes lies; the time is at the end. */
  lemma HeadLayout(head: SignedHead)
    requires Unsigned(head.size, 8) && Unsigned(head.ts, 8)
    ensures var s, k := HeadBytes(head), 25 + |head.headHash|;
      && |s| == k + 8 && s[..17] == Ascii("zkage/v1/loghead") + [0]
      && s[17..25] == I2osp(head.size, 8) && s[25..k] == head.headHash && s[k..] == I2osp(head.ts, 8)
  {
    assert LOG_HEAD_TAG == Ascii("zkage/v1/loghead") + [0];
  }

  /** A signed head names one size, hash and time, whatever the length of the hash. */
  lemma HeadBytesInjective(a: SignedHead, b: SignedHead)
    requires Unsigned(a.size, 8) && Unsigned(a.ts, 8) && Unsigned(b.size, 8) && Unsigned(b.ts, 8)
    ensures HeadBytes(a) == HeadBytes(b) <==> a.size == b.size && a.headHash == b.headHash && a.ts == b.ts
  {
    if HeadBytes(a) == HeadBytes(b) {
      assert |HeadBytes(a)| == |LOG_HEAD_TAG| + 16 + |a.headHash|;
      assert |HeadBytes(b)| == |LOG_HEAD_TAG| + 16 + |b.headHash|;
      var front, front' := LOG_HEAD_TAG + I2osp(a.size, 8), LOG_HEAD_TAG + I2osp(b.size, 8);
      SplitConcat(front + a.headHash, I2osp(a.ts, 8), front' + b.headHash, I2osp(b.ts, 8));
      SplitConcat(front, a.headHash, front', b.headHash);
      SplitConcat(LOG_HEAD_TAG, I2osp(a.size, 8), LOG_HEAD_TAG, I2osp(b.size, 8));
      I2ospInjective(a.size, b.size, 8);
      I2ospInjective(a.ts, b.ts, 8);
    }
  }

  predicate HeadVerifies(ed: SignatureCheck, logPublicRaw: Bytes, head: SignedHead) {
    && Unsigned(head.size, 8) && Unsigned(head.ts, 8)
    && ed(logPublicRaw, head.signature, HeadBytes(head))
  }

  /** When a served log is taken over. */
  ghost predicate Accepts(h: Hash, ed: SignatureCheck, st: UAState, resp: Response) {
    && resp.logPublicRaw == st.logPublicRaw
    && HeadVerifies(ed, resp.logPublicRaw, resp.head)
    && Extends(h, st.pinnedSize, st.pinnedHead, resp.records)
    && resp.head.size == |resp.records|
    && resp.head.headHash == Head(resp.records)
  }

  /** The state after one synchronisation, whether it was accepted or refused. */
  ghost function AfterSync(h: Hash, ed: SignatureCheck, st: UAState, resp: Response): UAState {
    if Accepts(h, ed, st, resp)
    then st.(pinnedSize := |resp.records|, pinnedHead := Head(resp.records))
    else st
  }

  /** What a user agent takes over, and nothing else: a valid log that carries the pinned hash at the pinned
      size, under a head with the number of its records and its last hash, signed with the log key that
      the user agent knows; the pin then moves there. */
  lemma AcceptsExact(h: Hash, ed: SignatureCheck, st: UAState, resp: Response)
    ensures var head, records := resp.head, resp.records;
      Accepts(h, ed, st, resp) <==>
        && resp.logPublicRaw == st.logPublicRaw
        && Unsigned(head.size, 8) && Unsigned(head.ts, 8)
        && ed(st.logPublicRaw, head.signature, HeadBytes(head))
        && ValidChain(h, records)
        && (st.pinnedSize > 0 ==>
              st.pinnedSize <= |records| && records[st.pinnedSize - 1].recordHash == st.pinnedHead)
        && head.size == |records|
        && head.headHash == if records == [] then Zeros(32) else records[|records| - 1].recordHash
    ensures AfterSync(h, ed, st, resp)
         == if Accepts(h, ed, st, resp) then UAState(st.logPublicRaw, |resp.records|, resp.head.headHash) else st
  {
  }

  /** `sync_log`: the records and the moved pin, or an error that leaves the state as it was. */
  method SyncLog(h: Hash, ed: SignatureCheck, st: UAState, resp: Response)
    returns (r: Result<(Log, UAState), SyncError>)
    ensures r.Ok? <==> Accepts(h, ed, st, resp)
    ensures r.Ok? ==> r.value.0 == resp.records && r.value.1 == AfterSync(h, ed, st, resp)
    ensures r.Err? ==> AfterSync(h, ed, st, resp) == st
    ensures r == Err(LogKeyChanged) <==> resp.logPublicRaw != st.logPublicRaw
    ensures r == Err(BadHeadSignature) <==>
      resp.logPublicRaw == st.logPublicRaw && !HeadVerifies(ed, st.logPublicRaw, resp.head)
    ensures (r.Err? && r.error.LogCheckFailed?) <==>
      && resp.logPublicRaw == st.logPublicRaw && HeadVerifies(ed, st.logPublicRaw, resp.head)
      && !Extends(h, st.pinnedSize, st.pinnedHead, resp.records)
  {
    if resp.logPublicRaw != st.logPublicRaw {
      return Err(LogKeyChanged);
    }
    if !HeadVerifies(ed, resp.logPublicRaw, resp.head) {
      return Err(BadHeadSignature);
    }
    var chainHead := CheckExtension(h, st.pinnedSize, st.pinnedHead, resp.records);
    if chainHead.Err? {
      return Err(LogCheckFailed(chainHead.error));
    }
    if resp.head.size != |resp.records| || resp.head.headHash != chainHead.value {
      return Err(HeadMismatch);
    }
    r := Ok((resp.records, st.(pinnedSize := |resp.records|, pinnedHead := chainHead.value)));
  }

  // ---------------------------------------------------------------- whole runs

  /** The logs accepted over a run of synchronisations against any issuer. */
  ghost function Accepted(h: Hash, ed: SignatureCheck, st: UAState, run: seq<Response>): seq<Log>
    decreases |run|
  {
    if run == [] then []
    else
      (if Accepts(h, ed, st, run[0]) then [run[0].records] else [])
      + Accepted(h, ed, AfterSync(h, ed, st, run[0]), run[1..])
  }

  /** Every accepted log is a valid chain that extends the pin left by the one before it. */
  lemma {:induction false} AcceptedExtend(h: Hash, ed: SignatureCheck, st: UAState, run: seq<Response>)
    ensures var logs := Accepted(h, ed, st, run);
      && (logs != [] ==> Extends(h, st.pinnedSize, st.pinnedHead, logs[0]))
      && forall k :: 0 <= k < |logs| - 1 ==> Extends(h, |logs[k]|, Head(logs[k]), logs[k + 1])
    decreases |run|
  {
    if run != [] {
      var st' := AfterSync(h, ed, st, run[0]);
      AcceptedExtend(h, ed, st', run[1..]);
      var logs, rest := Accepted(h, ed, st, run), Accepted(h, ed, st', run[1..]);
      if Accepts(h, ed, st, run[0]) {
        assert logs == [run[0].records] + rest;
        forall k | 0 <= k < |logs| - 1
          ensures Extends(h, |logs[k]|, Head(logs[k]), logs[k + 1])
        {
          if k > 0 { assert logs[k] == rest[k - 1] && logs[k + 1] == rest[k]; }
        }
      } else {
        assert logs == rest;
      }
    }
  }

  lemma AcceptedValid(h: Hash, ed: SignatureCheck, st: UAState, run: seq<Response>, k: nat)
    requires k < |Accepted(h, ed, st, run)|
    ensures ValidChain(h, Accepted(h, ed, st, run)[k])
  {
    AcceptedExtend(h, ed, st, run);
    var logs := Accepted(h, ed, st, run);
    if k > 0 { assert Extends(h, |logs[k - 1]|, Head(logs[k - 1]), logs[k]); }
  }

  /** Two logs one of which follows the other in a run exhibit a hash collision. */
  ghost predicate StepCollides(h: Hash, logs: seq<Log>, k: nat) {
    k + 1 < |logs| && ValidChain(h, logs[k]) && ValidChain(h, logs[k + 1]) && CollisionIn(h, logs[k], logs[k + 1])
  }

  /** The log is append-only over whole runs: of any two accepted logs with 32-byte key ids, the
      earlier is a prefix of the later, or somewhere between them the run exhibits a collision. */
  lemma {:induction false} AppendOnly(h: Hash, ed: SignatureCheck, st: UAState, run: seq<Response>, i: nat, j: nat)
    requires i <= j < |Accepted(h, ed, st, run)|
    requires forall k :: i <= k <= j ==> KeyIdsWellFormed(Accepted(h, ed, st, run)[k])
    ensures var logs := Accepted(h, ed, st, run);
      logs[i] <= logs[j] || exists k :: i <= k < j && StepCollides(h, logs, k)
    decreases j
  {
    var logs := Accepted(h, ed, st, run);
    if i < j {
      AppendOnly(h, ed, st, run, i, j - 1);
      AcceptedExtend(h, ed, st, run);
      AcceptedValid(h, ed, st, run, j - 1);
      assert Extends(h, |logs[j - 1]|, Head(logs[j - 1]), logs[j - 1 + 1]);
      ExtensionIsPrefix(h, logs[j - 1], logs[j]);
      if CollisionIn(h, logs[j - 1], logs[j]) {
        assert StepCollides(h, logs, j - 1);
      }
    }
  }

  // ---------------------------------------------------------------- gossip

  const GOSSIP_LAG_TOLERANCE := 16

  /** The gossip check inside `verify_with_rp`. */
  predicate GossipAccepts(records: Log, logHead: Bytes) {
    var start := if |records| > GOSSIP_LAG_TOLERANCE then |records| - GOSSIP_LAG_TOLERANCE else 0;
    logHead == GENESIS_PREV || exists i :: start <= i < |records| && records[i].recordHash == logHead
  }

  /** At most fifteen records behind. */
  predicate RecentPrefix(other: Log, mine: Log) {
    other <= mine && |mine| - |other| <= 15
  }

  /** The heads of two logs can be told apart: the other log is not empty, its last record does not hash to
      the genesis value, and no two records of the two collide. */
  ghost predicate Telling(h: Hash, mine: Log, other: Log)
    requires ValidChain(h, mine) && ValidChain(h, other)
  {
    other != [] && Head(other) != GENESIS_PREV && !CollisionIn(h, mine, other)
  }

  /** The check is exact. For verified logs with 32-byte key ids, unless they exhibit a collision or
      the other log's last record hashes to the genesis value, the head of the other log is accepted
      if and only if that log is empty or a prefix of ours at most fifteen records behind. */
  lemma GossipExact(h: Hash, mine: Log, other: Log)
    requires ValidChain(h, mine) && ValidChain(h, other)
    requires KeyIdsWellFormed(mine) && KeyIdsWellFormed(other)
    requires !CollisionIn(h, mine, other)
    requires other != [] ==> Head(other) != GENESIS_PREV
    ensures GossipAccepts(mine, Head(other)) <==> other == [] || RecentPrefix(other, mine)
  {
    if other != [] && GossipAccepts(mine, Head(other)) {
      var i :| 0 <= i < |mine| && |mine| - GOSSIP_LAG_TOLERANCE <= i && mine[i].recordHash == Head(other);
      EqualRecordHashes(h, mine, i, other, |other| - 1);
      SameHeadExact(h, mine, other, |other|);
      assert other[..|other|] == other;
    }
    if other != [] && RecentPrefix(other, mine) {
      assert mine[|other| - 1] == other[|other| - 1];
    }
  }

  /** Prefixes within the tolerance, and the empty log, are accepted with no assumption on the hash. */
  lemma GossipToleratesLag(mine: Log, other: Log)
    requires other == [] || RecentPrefix(other, mine)
    ensures GossipAccepts(mine, Head(other))
  {
    if other != [] { assert mine[|other| - 1] == other[|other| - 1]; }
  }
}
