/** The bytes a device key signs for one issuance request. */
module DeviceKey {
  import opened Bytes
  import opened TransLog

  /** The tag zkage/v1/issuance and its terminating zero byte. */
  const ISSUANCE_TAG: Bytes :=
    [122, 107, 97, 103, 101, 47, 118, 49, 47, 105, 115, 115, 117, 97, 110, 99, 101, 0]
  const ACCOUNT_ID_LEN := 16
  const REQUEST_ID_LEN := 16

  /** Largest accepted distance between a request's timestamp and the issuer's clock, in seconds. */
  const ISSUANCE_TS_WINDOW := 60

  /** The fields of an issuance request that the device signature covers. */
  datatype Issuance = Issuance(accountId: Bytes, scope: int, blindedMsg: Bytes, ts: int, requestId: Bytes)

  /** The fields that satisfy the layout; the source raises IssuanceBindingError for any other. */
  predicate FitsLayout(i: Issuance) {
    && |i.accountId| == ACCOUNT_ID_LEN
    && 0 <= i.scope <= 0xFF
    && i.blindedMsg != []
    && Unsigned(i.ts, 8)
    && |i.requestId| == REQUEST_ID_LEN
  }

  /** The lengths and ranges of the fields. */
  lemma FitsExact(i: Issuance)
    ensures FitsLayout(i) <==>
      && |i.accountId| == 16 && 0 <= i.scope <= 255 && |i.blindedMsg| >= 1 && 0 <= i.ts < 0x1_0000_0000_0000_0000
      && |i.requestId| == 16
  {
    EightBytes();
  }

  function Payload(sha: Hash, i: Issuance): Bytes
    requires FitsLayout(i)
  {
    ISSUANCE_TAG + (i.accountId + ([i.scope] + (sha(i.blindedMsg) + (I2osp(i.ts, 8) + i.requestId))))
  }

  /** Where each field lies. */
  lemma PayloadLayout(sha: Hash, i: Issuance)
    requires FitsLayout(i)
    ensures var p := Payload(sha, i);
      && |p| == 91 && p[..18] == Ascii("zkage/v1/issuance") + [0] && p[18..34] == i.accountId && p[34] == i.scope
      && p[35..67] == sha(i.blindedMsg) && p[67..75] == I2osp(i.ts, 8) && p[75..] == i.requestId
  {
    assert ISSUANCE_TAG == Ascii("zkage/v1/issuance") + [0];
  }

  /** One payload authorises one request: equal payloads mean equal account, scope, timestamp and
      request id, and the same blinded message unless the two messages are a hash collision. */
  lemma PayloadBinds(sha: Hash, a: Issuance, b: Issuance)
    requires FitsLayout(a) && FitsLayout(b) && Payload(sha, a) == Payload(sha, b)
    ensures a.(blindedMsg := b.blindedMsg) == b
    ensures sha(a.blindedMsg) == sha(b.blindedMsg)
  {
    var a4, b4 := I2osp(a.ts, 8) + a.requestId, I2osp(b.ts, 8) + b.requestId;
    var a3, b3 := sha(a.blindedMsg) + a4, sha(b.blindedMsg) + b4;
    var a2, b2 := [a.scope] + a3, [b.scope] + b3;
    SplitConcat(ISSUANCE_TAG, a.accountId + a2, ISSUANCE_TAG, b.accountId + b2);
    SplitConcat(a.accountId, a2, b.accountId, b2);
    SplitConcat([a.scope], a3, [b.scope], b3);
    assert [a.scope][0] == [b.scope][0];
    SplitConcat(sha(a.blindedMsg), a4, sha(b.blindedMsg), b4);
    SplitConcat(I2osp(a.ts, 8), a.requestId, I2osp(b.ts, 8), b.requestId);
    I2ospInjective(a.ts, b.ts, 8);
  }
}
