/** Which key of a scope is active: the latest record of each key decides its status. */
module ActiveKeys {
  import opened Wrappers
  import opened Bytes
  import opened TransLog

  /** `latest_by_key[record.key_id] = record` on a dictionary in insertion order. */
  function Upsert(latest: Log, r: LogRecord): Log {
    if latest == [] then [r]
    else if latest[0].body.keyId == r.body.keyId then [r] + latest[1..]
    else [latest[0]] + Upsert(latest[1..], r)
  }

  function LatestByKey(records: Log, scope: int): Log {
    if records == [] then []
    else
      var before, last := LatestByKey(records[..|records| - 1], scope), records[|records| - 1];
      if last.body.scope == scope then Upsert(before, last) else before
  }

  predicate InWindow(r: LogRecord, now: int) {
    r.body.status == Active && r.body.notBefore <= now <= r.body.notAfter
  }

  function Candidates(latest: Log, now: int): Log {
    if latest == [] then []
    else Candidates(latest[..|latest| - 1], now)
         + if InWindow(latest[|latest| - 1], now) then [latest[|latest| - 1]] else []
  }

  /** Python's `max` by epoch: the first of the largest. */
  function FirstMax(candidates: Log): Option<LogRecord> {
    if candidates == [] then None
    else
      var best, last := FirstMax(candidates[..|candidates| - 1]), candidates[|candidates| - 1];
      if best.None? || last.body.epoch > best.value.body.epoch then Some(last) else best
  }

  function ActiveRecordFor(records: Log, scope: int, now: int): Option<LogRecord> {
    FirstMax(Candidates(LatestByKey(records, scope), now))
  }

  /** The source's two passes over the log. */
  method FindActiveRecord(records: Log, scope: int, now: int) returns (r: Option<LogRecord>)
    ensures r == ActiveRecordFor(records, scope, now)
  {
    var latest: Log := [];
    for i := 0 to |records|
      invariant latest == LatestByKey(records[..i], scope)
    {
      assert records[..i + 1][..i] == records[..i];
      if records[i].body.scope == scope {
        latest := Upsert(latest, records[i]);
      }
    }
    assert records[..|records|] == records;
    r := None;
    for i := 0 to |latest|
      invariant r == FirstMax(Candidates(latest[..i], now))
    {
      assert latest[..i + 1][..i] == latest[..i];
      ghost var before := Candidates(latest[..i], now);
      if InWindow(latest[i], now) {
        assert (before + [latest[i]])[..|before|] == before;
        if r.None? || latest[i].body.epoch > r.value.body.epoch {
          r := Some(latest[i]);
        }
      } else {
        assert before + [] == before;
      }
    }
    assert latest[..|latest|] == latest;
  }

  // ---------------------------------------------------------------- what it means

  /** Record `i` is the last word on its key within the scope. */
  predicate Effective(records: Log, scope: int, i: int) {
    && 0 <= i < |records| && records[i].body.scope == scope
    && forall j :: i < j < |records| && records[j].body.scope == scope
         ==> records[j].body.keyId != records[i].body.keyId
  }

  predicate Candidate(records: Log, scope: int, now: int, i: int) {
    Effective(records, scope, i) && InWindow(records[i], now)
  }

  ghost predicate DistinctKeys(latest: Log) {
    forall i, j :: 0 <= i < j < |latest| ==> latest[i].body.keyId != latest[j].body.keyId
  }

  lemma {:induction false} UpsertMembers(latest: Log, r: LogRecord)
    requires DistinctKeys(latest)
    ensures DistinctKeys(Upsert(latest, r))
    ensures forall x :: x in Upsert(latest, r) <==> x == r || (x in latest && x.body.keyId != r.body.keyId)
  {
    if latest != [] {
      var rest := latest[1..];
      assert latest == [latest[0]] + rest;
      if latest[0].body.keyId != r.body.keyId {
        UpsertMembers(rest, r);
        var up := Upsert(rest, r);
        forall i | 0 <= i < |up|
          ensures up[i].body.keyId != latest[0].body.keyId
        {
          assert up[i] in up;
        }
      }
    }
  }

  ghost predicate EffectiveRecord(records: Log, scope: int, x: LogRecord) {
    exists i :: Effective(records, scope, i) && records[i] == x
  }

  /** The dictionary holds exactly the effective records. */
  lemma {:induction false} LatestExact(records: Log, scope: int)
    ensures DistinctKeys(LatestByKey(records, scope))
    ensures forall x :: x in LatestByKey(records, scope) <==> EffectiveRecord(records, scope, x)
  {
    if records != [] {
      var n := |records| - 1;
      var before, last := records[..n], records[n];
      LatestExact(before, scope);
      if last.body.scope == scope { UpsertMembers(LatestByKey(before, scope), last); }
      forall x
        ensures x in LatestByKey(records, scope) <==> EffectiveRecord(records, scope, x)
      {
        EffectiveStep(records, scope, x);
      }
    }
  }

  /** Appending one record: the earlier records of its key in its scope stop being effective. */
  lemma EffectiveAtStep(records: Log, scope: int, i: int)
    requires records != []
    ensures var n := |records| - 1;
      Effective(records, scope, i) <==>
        if i == n then records[n].body.scope == scope
        else Effective(records[..n], scope, i)
             && (records[n].body.scope == scope ==> records[n].body.keyId != records[i].body.keyId)
  {
    var n := |records| - 1;
    if 0 <= i < n {
      assert forall j :: i < j < n ==> records[..n][j] == records[j];
    }
  }

  lemma EffectiveStep(records: Log, scope: int, x: LogRecord)
    requires records != []
    ensures var n := |records| - 1;
      EffectiveRecord(records, scope, x) <==>
        if records[n].body.scope != scope then EffectiveRecord(records[..n], scope, x)
        else x == records[n] || (EffectiveRecord(records[..n], scope, x) && x.body.keyId != records[n].body.keyId)
  {
    var n := |records| - 1;
    if EffectiveRecord(records, scope, x) {
      var i :| Effective(records, scope, i) && records[i] == x;
      EffectiveAtStep(records, scope, i);
      if i < n { assert records[..n][i] == x; }
    }
    if EffectiveRecord(records[..n], scope, x) {
      var i :| Effective(records[..n], scope, i) && records[..n][i] == x;
      EffectiveAtStep(records, scope, i);
      assert records[i] == x;
    }
    EffectiveAtStep(records, scope, n);
  }

  lemma {:induction false} CandidatesExact(latest: Log, now: int)
    ensures forall x :: x in Candidates(latest, now) <==> x in latest && InWindow(x, now)
  {
    if latest != [] {
      var n := |latest| - 1;
      CandidatesExact(latest[..n], now);
      assert latest == latest[..n] + [latest[n]];
    }
  }

  lemma {:induction false} FirstMaxExact(candidates: Log)
    ensures FirstMax(candidates).None? <==> candidates == []
    ensures candidates != [] ==> FirstMax(candidates).value in candidates
    ensures forall x :: x in candidates ==> x.body.epoch <= FirstMax(candidates).value.body.epoch
  {
    if candidates != [] {
      var n := |candidates| - 1;
      FirstMaxExact(candidates[..n]);
      forall x | x in candidates
        ensures x in candidates[..n] || x == candidates[n]
      {
        var i :| 0 <= i < |candidates| && candidates[i] == x;
        if i < n { assert candidates[..n][i] == x; }
      }
    }
  }

  /** The active record of a scope: none exactly when no key's latest record is active and in
      window, and otherwise such a record of the highest epoch. */
  lemma ActiveRecordExact(records: Log, scope: int, now: int)
    ensures var r := ActiveRecordFor(records, scope, now);
      && (r.None? <==> forall i :: !Candidate(records, scope, now, i))
      && (r.Some? ==> exists i :: Candidate(records, scope, now, i) && records[i] == r.value)
      && (forall i :: Candidate(records, scope, now, i) ==> r.Some? && records[i].body.epoch <= r.value.body.epoch)
  {
    var latest := LatestByKey(records, scope);
    LatestExact(records, scope);
    CandidatesExact(latest, now);
    FirstMaxExact(Candidates(latest, now));
    var r := ActiveRecordFor(records, scope, now);
    forall i | Candidate(records, scope, now, i)
      ensures records[i] in Candidates(latest, now)
    {
      assert EffectiveRecord(records, scope, records[i]);
    }
    if r.Some? {
      assert EffectiveRecord(records, scope, r.value);
      var i :| Effective(records, scope, i) && records[i] == r.value;
      assert Candidate(records, scope, now, i);
    }
  }

  // ---------------------------------------------------------------- equal epochs

  /** The number of records before the first one of this key in the scope; all of them if there is none. */
  function FirstSeen(records: Log, scope: int, keyId: Bytes): (k: nat)
    ensures k <= |records|
    ensures k < |records| ==> records[k].body.scope == scope && records[k].body.keyId == keyId
    ensures forall j :: 0 <= j < k ==> records[j].body.scope != scope || records[j].body.keyId != keyId
  {
    if records == [] || (records[0].body.scope == scope && records[0].body.keyId == keyId) then 0
    else 1 + FirstSeen(records[1..], scope, keyId)
  }

  /** The keys of these records are in the order in which the log first has them. */
  ghost predicate Ordered(records: Log, scope: int, s: Log) {
    forall i, j :: 0 <= i < j < |s| ==>
      FirstSeen(records, scope, s[i].body.keyId) < FirstSeen(records, scope, s[j].body.keyId)
  }

  /** A key that the log already has is found where it was. */
  lemma SeenStep(records: Log, scope: int, keyId: Bytes)
    requires records != []
    ensures var n := |records| - 1;
      FirstSeen(records[..n], scope, keyId) < n ==>
        FirstSeen(records, scope, keyId) == FirstSeen(records[..n], scope, keyId)
  {
    var n := |records| - 1;
    assert forall j :: 0 <= j < n ==> records[..n][j] == records[j];
  }

  /** The dictionary keeps a key at its place, or puts it at the end. */
  lemma {:induction false} UpsertShape(latest: Log, r: LogRecord)
    ensures var up := Upsert(latest, r);
      && |latest| <= |up| <= |latest| + 1
      && (forall i :: 0 <= i < |latest| ==> up[i].body.keyId == latest[i].body.keyId)
      && (|up| > |latest| ==>
            up[|latest|] == r && forall i :: 0 <= i < |latest| ==> latest[i].body.keyId != r.body.keyId)
  {
    if latest != [] { UpsertShape(latest[1..], r); }
  }

  /** The records of this log are all keys that it has had before position `n`. */
  ghost predicate SeenBefore(records: Log, scope: int, s: Log, n: int) {
    forall i :: 0 <= i < |s| ==> FirstSeen(records, scope, s[i].body.keyId) < n
  }

  /** What is in order stays in order when the log grows. */
  lemma OrderedLonger(records: Log, scope: int, s: Log)
    requires records != []
    requires var n := |records| - 1; Ordered(records[..n], scope, s) && SeenBefore(records[..n], scope, s, n)
    ensures Ordered(records, scope, s) && SeenBefore(records, scope, s, |records| - 1)
  {
    forall i | 0 <= i < |s|
      ensures FirstSeen(records, scope, s[i].body.keyId)
           == FirstSeen(records[..|records| - 1], scope, s[i].body.keyId)
    {
      SeenStep(records, scope, s[i].body.keyId);
    }
  }

  lemma {:induction false} LatestOrdered(records: Log, scope: int)
    ensures Ordered(records, scope, LatestByKey(records, scope))
    ensures SeenBefore(records, scope, LatestByKey(records, scope), |records|)
  {
    if records != [] {
      var n := |records| - 1;
      var before := LatestByKey(records[..n], scope);
      LatestOrdered(records[..n], scope);
      OrderedLonger(records, scope, before);
      if records[n].body.scope == scope { UpsertOrdered(records, scope, before); }
    }
  }

  lemma UpsertOrdered(records: Log, scope: int, before: Log)
    requires records != [] && records[|records| - 1].body.scope == scope
    requires before == LatestByKey(records[..|records| - 1], scope)
    requires Ordered(records, scope, before) && SeenBefore(records, scope, before, |records| - 1)
    ensures Ordered(records, scope, Upsert(before, records[|records| - 1]))
    ensures SeenBefore(records, scope, Upsert(before, records[|records| - 1]), |records|)
  {
    var n := |records| - 1;
    UpsertShape(before, records[n]);
    var up := Upsert(before, records[n]);
    if |up| > |before| {
      NewKeySeen(records, scope, before);
      assert up[..|before|] + [up[|before|]] == up;
    }
  }

  /** A key that the dictionary does not have yet is new. */
  lemma NewKeySeen(records: Log, scope: int, before: Log)
    requires records != [] && before == LatestByKey(records[..|records| - 1], scope)
    requires records[|records| - 1].body.scope == scope
    requires forall i :: 0 <= i < |before| ==> before[i].body.keyId != records[|records| - 1].body.keyId
    ensures FirstSeen(records, scope, records[|records| - 1].body.keyId) == |records| - 1
  {
    var n, keyId := |records| - 1, records[|records| - 1].body.keyId;
    var k := FirstSeen(records, scope, keyId);
    if k < n { SeenIsLatest(records[..n], scope, k); }
  }

  /** The dictionary has every key of the log. */
  lemma SeenIsLatest(records: Log, scope: int, k: nat)
    requires k < |records| && records[k].body.scope == scope
    ensures exists x :: x in LatestByKey(records, scope) && x.body.keyId == records[k].body.keyId
  {
    var last := LastOf(records, scope, k);
    LatestExact(records, scope);
    assert EffectiveRecord(records, scope, records[last]);
  }

  /** A key in the log has a last record. */
  lemma {:induction false} LastOf(records: Log, scope: int, k: nat) returns (i: nat)
    requires k < |records| && records[k].body.scope == scope
    ensures Effective(records, scope, i) && records[i].body.keyId == records[k].body.keyId
    decreases |records| - k
  {
    if j :| k < j < |records| && records[j].body.scope == scope && records[j].body.keyId == records[k].body.keyId {
      i := LastOf(records, scope, j);
    } else {
      i := k;
    }
  }

  lemma OrderedPush(records: Log, scope: int, s: Log, x: LogRecord)
    requires Ordered(records, scope, s)
    requires forall y :: y in s ==> FirstSeen(records, scope, y.body.keyId) < FirstSeen(records, scope, x.body.keyId)
    ensures Ordered(records, scope, s + [x])
  {
  }

  lemma {:induction false} CandidatesOrdered(records: Log, scope: int, latest: Log, now: int)
    requires Ordered(records, scope, latest)
    ensures Ordered(records, scope, Candidates(latest, now))
  {
    if latest != [] {
      var n := |latest| - 1;
      CandidatesOrdered(records, scope, latest[..n], now);
      CandidatesExact(latest[..n], now);
      var before := Candidates(latest[..n], now);
      if InWindow(latest[n], now) {
        forall x | x in before
          ensures FirstSeen(records, scope, x.body.keyId) < FirstSeen(records, scope, latest[n].body.keyId)
        {
          var i :| 0 <= i < n && latest[..n][i] == x;
        }
        OrderedPush(records, scope, before, latest[n]);
      } else {
        assert before + [] == before;
      }
    }
  }

  lemma {:induction false} FirstMaxAt(s: Log) returns (m: nat)
    requires s != []
    ensures m < |s| && FirstMax(s) == Some(s[m])
    ensures forall i :: 0 <= i < m ==> s[i].body.epoch < s[m].body.epoch
  {
    var n := |s| - 1;
    if n == 0 {
      m := 0;
    } else {
      m := FirstMaxAt(s[..n]);
      if s[n].body.epoch > s[m].body.epoch {
        FirstMaxExact(s[..n]);
        assert forall i :: 0 <= i < n ==> s[i] == s[..n][i] && s[..n][i] in s[..n];
        m := n;
      }
    }
  }

  lemma UsableHas(records: Log, scope: int, now: int, i: int)
    requires Candidate(records, scope, now, i)
    ensures records[i] in Candidates(LatestByKey(records, scope), now)
  {
    LatestExact(records, scope);
    CandidatesExact(LatestByKey(records, scope), now);
    assert EffectiveRecord(records, scope, records[i]);
  }

  /** Of usable keys with the same highest epoch, the answer is the one that came into the log first. */
  lemma TieExact(records: Log, scope: int, now: int, i: int)
    requires Candidate(records, scope, now, i)
    ensures var r := ActiveRecordFor(records, scope, now);
      r.Some? && (records[i].body.epoch == r.value.body.epoch ==>
                    FirstSeen(records, scope, r.value.body.keyId) <= FirstSeen(records, scope, records[i].body.keyId))
  {
    var latest := LatestByKey(records, scope);
    LatestOrdered(records, scope);
    CandidatesOrdered(records, scope, latest, now);
    UsableHas(records, scope, now, i);
    var usable := Candidates(latest, now);
    var m := FirstMaxAt(usable);
    var j :| 0 <= j < |usable| && usable[j] == records[i];
  }
}
