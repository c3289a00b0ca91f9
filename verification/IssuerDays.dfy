/** The daily cap on all interleavings of the issuer's handlers, and when a device is held to it. */
module IssuerDays {
  import opened Wrappers
  import opened Bytes
  import opened RateLimit
  import opened Issuer
  import opened IssuerRuns

  // ---------------------------------------------------------------- grants by day

  /** How many grants an account has at clock values of a day. */
  function DayGrants(grants: seq<Grant>, id: Bytes, day: int): nat {
    if grants == [] then 0
    else
      var g := grants[|grants| - 1];
      DayGrants(grants[..|grants| - 1], id, day)
      + if g.account.accountId == id && DayOf(g.now as real) == day then 1 else 0
  }

  /** The limiter's history explains the grants of every account and day. */
  ghost predicate DaysExplained(l: Limits, calls: seq<Call>, grants: seq<Grant>)
    requires l.Valid()
  {
    forall id, day :: DayGrants(grants, id, day) == GrantsOnDay(l, TimesFor(calls, id), |TimesFor(calls, id)|, day)
  }

  lemma {:induction false} DayPrefix(l: Limits, times: seq<real>, now: real, n: nat, day: int)
    requires l.Valid() && n <= |times|
    ensures GrantsOnDay(l, times + [now], n, day) == GrantsOnDay(l, times, n, day)
  {
    if n > 0 {
      DayPrefix(l, times, now, n - 1, day);
      assert (times + [now])[..n - 1] == times[..n - 1];
    }
  }

  lemma OneMoreDayCall(l: Limits, times: seq<real>, now: real, day: int)
    requires l.Valid()
    ensures GrantsOnDay(l, times + [now], |times| + 1, day)
         == GrantsOnDay(l, times, |times|, day)
            + if Allowed(l, AfterRun(l, None, times), now) && DayOf(now) == day then 1 else 0
  {
    assert (times + [now])[..|times|] == times;
    DayPrefix(l, times, now, |times|, day);
  }

  lemma OneMoreDayGrant(grants: seq<Grant>, g: Grant, id: Bytes, day: int)
    ensures DayGrants(grants + [g], id, day)
         == DayGrants(grants, id, day) + if g.account.accountId == id && DayOf(g.now as real) == day then 1 else 0
  {
    assert (grants + [g])[..|grants|] == grants;
  }

  lemma DayCounted(l: Limits, calls: seq<Call>, grants: seq<Grant>, g: Grant, hit: bool, id: Bytes, day: int)
    requires l.Valid()
    requires DayGrants(grants, id, day) == GrantsOnDay(l, TimesFor(calls, id), |TimesFor(calls, id)|, day)
    requires hit <==> Allowed(l, AfterRun(l, None, TimesFor(calls, g.account.accountId)), g.now as real)
    ensures var times := TimesFor(calls + [Call(g.account.accountId, g.now as real)], id);
      DayGrants(if hit then grants + [g] else grants, id, day) == GrantsOnDay(l, times, |times|, day)
  {
    var call := Call(g.account.accountId, g.now as real);
    OneMoreTime(calls, call, id);
    OneMoreDayGrant(grants, g, id, day);
    if call.key == id {
      OneMoreDayCall(l, TimesFor(calls, id), call.now, day);
    }
  }

  lemma AdmitDays(l: Limits, s: State, h: nat, signable: bool)
    requires l.Valid() && Metered(l, s) && DaysExplained(l, s.calls, s.grants)
    ensures var next := AfterIssueAdmit(l, s, h, signable);
      DaysExplained(l, next.calls, next.grants)
  {
    if h in s.handlers && s.handlers[h].Recorded? && s.handlers[h].req.fields.scope <= s.handlers[h].account.maxScope {
      var at := s.handlers[h];
      var call, g := Call(at.account.accountId, at.now as real), Grant(at.account, at.req, at.now, at.mark, signable);
      var hit := Allowed(l, Get(s.buckets, call.key), call.now);
      AdmitEffect(l, s, h, signable);
      assert Get(s.buckets, call.key) == AfterRun(l, None, TimesFor(s.calls, call.key));
      forall id, day
        ensures var times := TimesFor(s.calls + [call], id);
          DayGrants(if hit then s.grants + [g] else s.grants, id, day) == GrantsOnDay(l, times, |times|, day)
      {
        DayCounted(l, s.calls, s.grants, g, hit, id, day);
      }
    }
  }

  lemma {:induction false} RunDays(env: Env, l: Limits, steps: seq<Step>)
    requires l.Valid()
    ensures DaysExplained(l, Run(env, l, steps).calls, Run(env, l, steps).grants)
  {
    if steps != [] {
      var s, last := Run(env, l, steps[..|steps| - 1]), steps[|steps| - 1];
      RunDays(env, l, steps[..|steps| - 1]);
      if last.IssueAdmit? {
        RunMetered(env, l, steps[..|steps| - 1]);
        AdmitDays(l, s, last.handler, last.signable);
      } else {
        assert Next(env, l, s, last).calls == s.calls && Next(env, l, s, last).grants == s.grants;
      }
    }
  }

  /** How many blind signatures a device key obtained at clock values of a day. */
  function SignedOnDay(grants: seq<Grant>, devicePub: Bytes, day: int): nat {
    if grants == [] then 0
    else
      var g := grants[|grants| - 1];
      SignedOnDay(grants[..|grants| - 1], devicePub, day)
      + if g.signed && g.account.devicePub == devicePub && DayOf(g.now as real) == day then 1 else 0
  }

  lemma OneMoreSigned(grants: seq<Grant>, g: Grant, devicePub: Bytes, day: int)
    ensures SignedOnDay(grants + [g], devicePub, day)
         == SignedOnDay(grants, devicePub, day)
            + if g.signed && g.account.devicePub == devicePub && DayOf(g.now as real) == day then 1 else 0
  {
    assert (grants + [g])[..|grants|] == grants;
  }

  lemma {:induction false} SignedAreDayGrants(grants: seq<Grant>, devicePub: Bytes, id: Bytes, day: int)
    requires forall i :: 0 <= i < |grants| && grants[i].account.devicePub == devicePub ==>
        grants[i].account.accountId == id
    ensures SignedOnDay(grants, devicePub, day) <= DayGrants(grants, id, day)
  {
    if grants != [] { SignedAreDayGrants(grants[..|grants| - 1], devicePub, id, day); }
  }

  /** One daily budget per device, on every interleaving: as long as the clock values that reach the
      limiter under the device's account do not come back to a day they had left, the blind signatures
      of the device at clock values of one day number at most the daily cap. */
  lemma DailyCapPerDevice(env: Env, l: Limits, steps: seq<Step>, devicePub: Bytes, id: Bytes, day: int)
    requires l.Valid() && Bound(Run(env, l, steps).rows, devicePub, id)
    requires DayBlocks(TimesFor(Run(env, l, steps).calls, id))
    ensures SignedOnDay(Run(env, l, steps).grants, devicePub, day) <= MaxInt(0, l.dailyCap)
  {
    var s := Run(env, l, steps);
    RunBinding(env, l, steps);
    forall i | 0 <= i < |s.grants| && s.grants[i].account.devicePub == devicePub
      ensures s.grants[i].account.accountId == id
    {
      BoundUnique(s.rows, devicePub, s.grants[i].account.accountId, id);
    }
    SignedAreDayGrants(s.grants, devicePub, id, day);
    RunDays(env, l, steps);
    CapHolds(l, TimesFor(s.calls, id), |TimesFor(s.calls, id)|, day);
  }
}
