/** The per-account limiter: a token bucket with a daily cap, the clock passed in. Its floats are reals. */
module RateLimit {
  import opened Wrappers
  import opened Bytes

  const DAY := 86400.0

  datatype Limits = Limits(capacity: int, refillSeconds: real, dailyCap: int) {
    /** The refill time is what the source divides by. */
    ghost predicate Valid() { refillSeconds > 0.0 }
  }

  datatype Bucket = Bucket(tokens: real, last: real, day: int, dayCount: int)

  datatype Answer = Answer(allowed: bool, retryAfter: int)

  function DayOf(now: real): int { (now / DAY).Floor }

  function Min(a: real, b: real): real { if a <= b then a else b }

  function MaxInt(a: int, b: int): int { if a >= b then a else b }

  /** `math.ceil`. */
  function Ceil(x: real): int { -((-x).Floor) }

  /** The bucket brought up to date: created full if absent, refilled, and its day count reset on a new day. */
  function Refreshed(l: Limits, b: Option<Bucket>, now: real): Bucket
    requires l.Valid()
  {
    var cap := l.capacity as real;
    match b
    case None => Bucket(Min(cap, cap + (now - now) / l.refillSeconds), now, DayOf(now), 0)
    case Some(s) =>
      Bucket(Min(cap, s.tokens + (now - s.last) / l.refillSeconds), now, DayOf(now),
             if DayOf(now) != s.day then 0 else s.dayCount)
  }

  /** The answer of an up-to-date bucket. */
  function AnswerOf(l: Limits, s: Bucket): Answer {
    if s.dayCount >= l.dailyCap then Answer(false, MaxInt(1, ((s.day + 1) as real * DAY - s.last).Floor))
    else if s.tokens < 1.0 then Answer(false, MaxInt(1, Ceil((1.0 - s.tokens) * l.refillSeconds)))
    else Answer(true, 0)
  }

  /** Whether an up-to-date bucket grants a slot. */
  predicate Allows(l: Limits, s: Bucket) {
    s.dayCount < l.dailyCap && s.tokens >= 1.0
  }

  /** Whether a call is granted. */
  predicate Allowed(l: Limits, b: Option<Bucket>, now: real)
    requires l.Valid()
  {
    Allows(l, Refreshed(l, b, now))
  }

  /** The bucket after one call. */
  function After(l: Limits, b: Option<Bucket>, now: real): Bucket
    requires l.Valid()
  {
    var s := Refreshed(l, b, now);
    if Allows(l, s) then s.(tokens := s.tokens - 1.0, dayCount := s.dayCount + 1) else s
  }

  function Ask(l: Limits, b: Option<Bucket>, now: real): Answer
    requires l.Valid()
  {
    AnswerOf(l, Refreshed(l, b, now))
  }

  /** The answer says allowed exactly when a slot is granted, and then names no wait; a refusal
      names a wait of at least one second. */
  lemma AskExact(l: Limits, b: Option<Bucket>, now: real)
    requires l.Valid()
    ensures Ask(l, b, now).allowed <==> Allowed(l, b, now)
    ensures if Allowed(l, b, now) then Ask(l, b, now).retryAfter == 0 else Ask(l, b, now).retryAfter >= 1
  {
  }

  type Buckets = map<Bytes, Bucket>

  function Get(m: Buckets, key: Bytes): Option<Bucket> {
    if key in m then Some(m[key]) else None
  }

  /** The limiter, with the dictionary of per-key states it updates. */
  class RateLimiter {
    const limits: Limits
    var state: Buckets

    constructor (limits: Limits)
      ensures this.limits == limits && state == map[]
    {
      this.limits, state := limits, map[];
    }

    /** Ask for a slot of `key` at `now`. */
    method Check(key: Bytes, now: real) returns (a: Answer)
      requires limits.Valid()
      modifies this
      ensures a == Ask(limits, Get(old(state), key), now)
      ensures state == old(state)[key := After(limits, Get(old(state), key), now)]
    {
      var cap := limits.capacity as real;
      if key !in state {
        state := state[key := Bucket(cap, now, DayOf(now), 0)];
      }
      var s := state[key];
      s := s.(tokens := Min(cap, s.tokens + (now - s.last) / limits.refillSeconds), last := now);
      var today := DayOf(now);
      if today != s.day {
        s := s.(day := today, dayCount := 0);
      }
      state := state[key := s];
      if s.dayCount >= limits.dailyCap {
        return Answer(false, MaxInt(1, ((s.day + 1) as real * DAY - now).Floor));
      }
      if s.tokens < 1.0 {
        return Answer(false, MaxInt(1, Ceil((1.0 - s.tokens) * limits.refillSeconds)));
      }
      state := state[key := s.(tokens := s.tokens - 1.0, dayCount := s.dayCount + 1)];
      a := Answer(true, 0);
    }
  }

  // ---------------------------------------------------------------- runs of one key

  /** The bucket after a run of calls on one key. */
  function AfterRun(l: Limits, b: Option<Bucket>, times: seq<real>): Option<Bucket>
    requires l.Valid()
  {
    if times == [] then b
    else Some(After(l, AfterRun(l, b, times[..|times| - 1]), times[|times| - 1]))
  }

  /** Whether call `i` of the run is granted. */
  predicate Granted(l: Limits, b: Option<Bucket>, times: seq<real>, i: nat)
    requires l.Valid() && i < |times|
  {
    Allowed(l, AfterRun(l, b, times[..i]), times[i])
  }

  /** How many of the first `n` calls are granted at a time in `[s, t]`. */
  function GrantsWithin(l: Limits, b: Option<Bucket>, times: seq<real>, n: nat, s: real, t: real): nat
    requires l.Valid() && n <= |times|
  {
    if n == 0 then 0
    else GrantsWithin(l, b, times, n - 1, s, t)
         + if Granted(l, b, times, n - 1) && s <= times[n - 1] <= t then 1 else 0
  }

  lemma DivAdd(a: real, b: real, r: real)
    requires r > 0.0
    ensures a / r + b / r == (a + b) / r
  {
    var x, y := a / r, b / r;
    assert (x + y) * r == a + b;
  }

  lemma DivMonotone(a: real, b: real, r: real)
    requires r > 0.0 && a <= b
    ensures a / r <= b / r
  {
    var x, y := a / r, b / r;
    if x > y { assert (x - y) * r > 0.0; }
  }

  lemma AfterRunStep(l: Limits, b: Option<Bucket>, times: seq<real>, n: nat)
    requires l.Valid() && n < |times|
    ensures AfterRun(l, b, times[..n + 1]) == Some(After(l, AfterRun(l, b, times[..n]), times[n]))
  {
    assert times[..n + 1][..n] == times[..n];
  }

  /** What one call does to the account of tokens against time, whatever the clock does. */
  lemma OneCall(l: Limits, b: Bucket, now: real)
    requires l.Valid()
    ensures var next := After(l, Some(b), now);
      var granted := if Allowed(l, Some(b), now) then 1.0 else 0.0;
      && granted + next.tokens <= b.tokens + (now - b.last) / l.refillSeconds
      && next.last == now
      && next.tokens <= l.capacity as real
      && (granted == 1.0 ==> next.tokens >= 0.0)
  {
  }

  /** The balance of a segment: grants so far plus tokens left, against a burst plus refill. */
  ghost predicate Balanced(l: Limits, end: Option<Bucket>, count: nat, start: real, now: real)
    requires l.Valid()
  {
    end.Some? && end.value.last == now
    && count as real + end.value.tokens <= l.capacity as real + (now - start) / l.refillSeconds
  }

  lemma BalanceStarts(l: Limits, b: Option<Bucket>, now: real)
    requires l.Valid() && Allowed(l, b, now)
    ensures Balanced(l, Some(After(l, b, now)), 1, now, now)
  {
    assert (now - now) / l.refillSeconds == 0.0;
  }

  lemma BalanceKept(l: Limits, b: Option<Bucket>, count: nat, start: real, last: real, now: real, more: nat)
    requires l.Valid() && Balanced(l, b, count, start, last)
    requires more <= if Allowed(l, b, now) then 1 else 0
    ensures Balanced(l, Some(After(l, b, now)), count + more, start, now)
  {
    OneCall(l, b.value, now);
    DivAdd(last - start, now - last, l.refillSeconds);
    assert (last - start) + (now - last) == now - start;
  }

  lemma GrantedAsks(l: Limits, b: Option<Bucket>, times: seq<real>, i: nat, before: Option<Bucket>)
    requires l.Valid() && i < |times| && before == AfterRun(l, b, times[..i]) && Granted(l, b, times, i)
    ensures Allowed(l, before, times[i])
  {
  }

  lemma AccountStep(l: Limits, b: Option<Bucket>, times: seq<real>, n: nat, start: real, count: nat, s: real, t: real)
    requires l.Valid() && 1 < n <= |times|
    requires Balanced(l, AfterRun(l, b, times[..n - 1]), count, start, times[n - 2])
    ensures Balanced(l, AfterRun(l, b, times[..n]),
                     count + if Granted(l, b, times, n - 1) && s <= times[n - 1] <= t then 1 else 0,
                     start, times[n - 1])
  {
    var before := AfterRun(l, b, times[..n - 1]);
    var hit := Granted(l, b, times, n - 1) && s <= times[n - 1] <= t;
    AfterRunStep(l, b, times, n - 1);
    if hit { GrantedAsks(l, b, times, n - 1, before); }
    BalanceKept(l, before, count, start, times[n - 2], times[n - 1], if hit then 1 else 0);
  }

  /** The bookkeeping behind the bound, from a first granted call `i` inside the interval: the grants
      counted since then, and the tokens left, fit in the burst plus what the elapsed time refills. */
  lemma {:induction false} Account(l: Limits, b: Option<Bucket>, times: seq<real>, i: nat, n: nat, s: real, t: real)
    requires l.Valid() && i < n <= |times|
    requires Granted(l, b, times, i) && GrantsWithin(l, b, times, i, s, t) == 0 && s <= times[i] <= t
    ensures Balanced(l, AfterRun(l, b, times[..n]), GrantsWithin(l, b, times, n, s, t), times[i], times[n - 1])
  {
    if n == i + 1 {
      AfterRunStep(l, b, times, i);
      GrantedAsks(l, b, times, i, AfterRun(l, b, times[..i]));
      BalanceStarts(l, AfterRun(l, b, times[..i]), times[i]);
    } else {
      Account(l, b, times, i, n - 1, s, t);
      AccountStep(l, b, times, n, times[i], GrantsWithin(l, b, times, n - 1, s, t), s, t);
    }
  }

  /** A balanced segment that ends with a grant inside the interval meets the bound. */
  lemma BalanceBounds(l: Limits, b: Option<Bucket>, count: nat, start: real, now: real, s: real, t: real)
    requires l.Valid() && Allowed(l, b, now) && s <= start && now <= t
    requires Balanced(l, Some(After(l, b, now)), count, start, now)
    ensures count as real <= l.capacity as real + (t - s) / l.refillSeconds
  {
    DivMonotone(now - start, t - s, l.refillSeconds);
  }

  lemma NoGrantsBound(l: Limits, s: real, t: real)
    requires l.Valid() && l.capacity >= 0 && s <= t
    ensures 0.0 <= l.capacity as real + (t - s) / l.refillSeconds
  {
    DivMonotone(0.0, t - s, l.refillSeconds);
    assert 0.0 / l.refillSeconds == 0.0;
  }

  /** The rate bound, for every sequence of call times, ordered or not: the grants at times in
      `[s, t]` number at most the capacity plus what that much time refills. */
  lemma {:induction false} RateBound(l: Limits, b: Option<Bucket>, times: seq<real>, n: nat, s: real, t: real)
    requires l.Valid() && l.capacity >= 0 && n <= |times| && s <= t
    ensures GrantsWithin(l, b, times, n, s, t) as real <= l.capacity as real + (t - s) / l.refillSeconds
  {
    if n == 0 {
      NoGrantsBound(l, s, t);
    } else if Granted(l, b, times, n - 1) && s <= times[n - 1] <= t {
      LastGrantBound(l, b, times, n, s, t);
    } else {
      RateBound(l, b, times, n - 1, s, t);
    }
  }

  lemma LastGrantBound(l: Limits, b: Option<Bucket>, times: seq<real>, n: nat, s: real, t: real)
    requires l.Valid() && 0 < n <= |times| && Granted(l, b, times, n - 1) && s <= times[n - 1] <= t
    ensures GrantsWithin(l, b, times, n, s, t) as real <= l.capacity as real + (t - s) / l.refillSeconds
  {
    var i := FirstGrant(l, b, times, n, s, t);
    Account(l, b, times, i, n, s, t);
    AfterRunStep(l, b, times, n - 1);
    GrantedAsks(l, b, times, n - 1, AfterRun(l, b, times[..n - 1]));
    BalanceBounds(l, AfterRun(l, b, times[..n - 1]), GrantsWithin(l, b, times, n, s, t), times[i], times[n - 1], s, t);
  }

  lemma {:induction false} FirstGrant(l: Limits, b: Option<Bucket>, times: seq<real>, n: nat, s: real,
                                      t: real)
    returns (i: nat)
    requires l.Valid() && n <= |times| && GrantsWithin(l, b, times, n, s, t) > 0
    ensures i < n && Granted(l, b, times, i) && s <= times[i] <= t && GrantsWithin(l, b, times, i, s, t) == 0
  {
    if GrantsWithin(l, b, times, n - 1, s, t) > 0 {
      i := FirstGrant(l, b, times, n - 1, s, t);
    } else {
      i := n - 1;
    }
  }

  // ---------------------------------------------------------------- daily cap and token range

  predicate Ordered(times: seq<real>) {
    forall i, j :: 0 <= i < j < |times| ==> times[i] <= times[j]
  }

  /** How many of the first `n` calls are granted on a given day. */
  function GrantsOnDay(l: Limits, times: seq<real>, n: nat, day: int): nat
    requires l.Valid() && n <= |times|
  {
    if n == 0 then 0
    else GrantsOnDay(l, times, n - 1, day)
         + if Granted(l, None, times, n - 1) && DayOf(times[n - 1]) == day then 1 else 0
  }

  lemma DayMonotone(a: real, b: real)
    requires a <= b
    ensures DayOf(a) <= DayOf(b)
  {
    DivMonotone(a, b, DAY);
  }

  /** What one call does to the day counter. */
  lemma DayStep(l: Limits, b: Option<Bucket>, now: real)
    requires l.Valid()
    ensures var next := After(l, b, now);
      var before := if b.None? || b.value.day != DayOf(now) then 0 else b.value.dayCount;
      && next.day == DayOf(now)
      && next.dayCount == before + (if Allowed(l, b, now) then 1 else 0)
      && (Allowed(l, b, now) ==> before < l.dailyCap)
  {
  }

  ghost predicate CountsDay(l: Limits, times: seq<real>, n: nat)
    requires l.Valid() && n <= |times|
  {
    n > 0 ==>
      var end := AfterRun(l, None, times[..n]);
      end.Some? && end.value.day == DayOf(times[n - 1])
      && end.value.dayCount == GrantsOnDay(l, times, n, DayOf(times[n - 1]))
  }

  lemma {:induction false} AbsentDayEmpty(l: Limits, times: seq<real>, n: nat, day: int)
    requires l.Valid() && n <= |times| && forall i :: 0 <= i < n ==> DayOf(times[i]) != day
    ensures GrantsOnDay(l, times, n, day) == 0
  {
    if n > 0 { AbsentDayEmpty(l, times, n - 1, day); }
  }

  /** No day is left and come back to. */
  predicate DayBlocks(times: seq<real>) {
    forall i, j, k :: 0 <= i < j < k < |times| && DayOf(times[i]) == DayOf(times[k]) ==>
        DayOf(times[j]) == DayOf(times[i])
  }

  lemma OrderedDays(times: seq<real>)
    requires Ordered(times)
    ensures DayBlocks(times)
  {
    forall i, j | 0 <= i < j < |times|
      ensures DayOf(times[i]) <= DayOf(times[j])
    {
      DayMonotone(times[i], times[j]);
    }
  }

  /** As long as no day is come back to, the bucket's own counter is the number of grants on its current
      day. */
  lemma {:induction false} CounterExact(l: Limits, times: seq<real>, n: nat)
    requires l.Valid() && DayBlocks(times) && n <= |times|
    ensures CountsDay(l, times, n)
  {
    if n > 0 {
      var now := times[n - 1];
      AfterRunStep(l, None, times, n - 1);
      CounterExact(l, times, n - 1);
      DayStep(l, AfterRun(l, None, times[..n - 1]), now);
      if n == 1 || DayOf(times[n - 2]) != DayOf(now) {
        AbsentDayEmpty(l, times, n - 1, DayOf(now));
      }
    }
  }

  /** As long as no day is come back to, the grants of one key on any one day number at most the daily
      cap. */
  lemma {:induction false} CapHolds(l: Limits, times: seq<real>, n: nat, day: int)
    requires l.Valid() && DayBlocks(times) && n <= |times|
    ensures GrantsOnDay(l, times, n, day) <= MaxInt(0, l.dailyCap)
  {
    if n > 0 {
      CapHolds(l, times, n - 1, day);
      if DayOf(times[n - 1]) == day && Granted(l, None, times, n - 1) { GrantWithinCap(l, times, n); }
    }
  }

  /** A grant leaves the count of its day within the cap. */
  lemma GrantWithinCap(l: Limits, times: seq<real>, n: nat)
    requires l.Valid() && DayBlocks(times) && 0 < n <= |times| && Granted(l, None, times, n - 1)
    ensures GrantsOnDay(l, times, n, DayOf(times[n - 1])) <= MaxInt(0, l.dailyCap)
  {
    AfterRunStep(l, None, times, n - 1);
    CounterExact(l, times, n);
    DayStep(l, AfterRun(l, None, times[..n - 1]), times[n - 1]);
  }

  /** With an ordered clock, the grants of one key on any one day number at most the daily cap. */
  lemma DailyCap(l: Limits, times: seq<real>, n: nat, day: int)
    requires l.Valid() && Ordered(times) && n <= |times|
    ensures GrantsOnDay(l, times, n, day) <= MaxInt(0, l.dailyCap)
  {
    OrderedDays(times);
    CapHolds(l, times, n, day);
  }

  // ---------------------------------------------------------------- when the daily cap fails

  /** How far the clock moves, forwards and backwards, over the first `n` calls. */
  function Travel(times: seq<real>, n: nat): real
    requires n <= |times|
  {
    if n <= 1 then 0.0
    else
      var step := times[n - 1] - times[n - 2];
      Travel(times, n - 1) + if step >= 0.0 then step else -step
  }

  lemma {:induction false} TravelGrows(times: seq<real>, m: nat, n: nat)
    requires m <= n <= |times|
    ensures 0.0 <= Travel(times, m) <= Travel(times, n)
    decreases n
  {
    if n > 0 && m < n {
      TravelGrows(times, m, n - 1);
    } else if n > 1 {
      TravelGrows(times, m - 1, n - 1);
    }
  }

  /** Limits under which a run never lacks tokens, and the daily cap is one. */
  function Generous(times: seq<real>): Limits {
    Limits(|times| + 2, Travel(times, |times|) + 1.0, 1)
  }

  /** A step of the clock costs at most its own length of refill. */
  lemma StepCost(tokens: real, step: real, refill: real)
    requires refill > 0.0
    ensures tokens + step / refill >= tokens - (if step >= 0.0 then step else -step) / refill
  {
    var size := if step >= 0.0 then step else -step;
    DivAdd(step, size, refill);
    DivMonotone(0.0, step + size, refill);
    assert 0.0 / refill == 0.0;
  }

  /** The tokens left are the capacity less one for every call and the refill time of the clock's travel. */
  lemma {:induction false} TokensLast(times: seq<real>, n: nat)
    requires 0 < n <= |times|
    ensures Travel(times, |times|) + 1.0 > 0.0
    ensures var l, end := Generous(times), AfterRun(Generous(times), None, times[..n]);
      && end.Some? && end.value.last == times[n - 1]
      && end.value.tokens >= (l.capacity - n) as real - Travel(times, n) / l.refillSeconds
  {
    TravelGrows(times, 0, |times|);
    var l := Generous(times);
    AfterRunStep(l, None, times, n - 1);
    assert 0.0 / l.refillSeconds == 0.0;
    if n > 1 {
      TokensLast(times, n - 1);
      var step := times[n - 1] - times[n - 2];
      var size := if step >= 0.0 then step else -step;
      StepCost(AfterRun(l, None, times[..n - 1]).value.tokens, step, l.refillSeconds);
      DivAdd(Travel(times, n - 1), size, l.refillSeconds);
      TravelGrows(times, n, n);
      DivMonotone(0.0, Travel(times, n), l.refillSeconds);
    }
  }

  lemma TravelCost(travel: real, size: real, refill: real)
    requires refill > 0.0 && travel + size <= refill
    ensures travel / refill + size / refill <= 1.0
  {
    DivAdd(travel, size, refill);
    DivMonotone(travel + size, refill, refill);
    assert refill / refill == 1.0;
  }

  lemma EnoughTokens(times: seq<real>, n: nat)
    requires n < |times|
    ensures Generous(times).Valid()
    ensures Refreshed(Generous(times), AfterRun(Generous(times), None, times[..n]), times[n]).tokens >= 1.0
  {
    TravelGrows(times, 0, |times|);
    var l := Generous(times);
    var end := AfterRun(l, None, times[..n]);
    if n > 0 {
      TokensLast(times, n);
      var step := times[n] - times[n - 1];
      var size := if step >= 0.0 then step else -step;
      assert end.value.tokens + step / l.refillSeconds >= 1.0 by {
        StepCost(end.value.tokens, step, l.refillSeconds);
        TravelGrows(times, n + 1, |times|);
        TravelCost(Travel(times, n), size, l.refillSeconds);
      }
    } else {
      assert 0.0 / l.refillSeconds == 0.0;
    }
  }

  /** The first call of a run, and every call on another day than the call before it, is granted. */
  lemma GrantedOnReturn(times: seq<real>, n: nat)
    requires n < |times| && (n > 0 ==> DayOf(times[n - 1]) != DayOf(times[n]))
    ensures Generous(times).Valid() && Granted(Generous(times), None, times, n)
  {
    EnoughTokens(times, n);
    if n > 0 {
      AfterRunStep(Generous(times), None, times, n - 1);
      DayStep(Generous(times), AfterRun(Generous(times), None, times[..n - 1]), times[n - 1]);
    }
  }

  lemma {:induction false} GrantsAdd(l: Limits, times: seq<real>, m: nat, n: nat, day: int)
    requires l.Valid() && m < n <= |times| && Granted(l, None, times, m) && DayOf(times[m]) == day
    ensures GrantsOnDay(l, times, n, day) >= GrantsOnDay(l, times, m, day) + 1
    decreases n
  {
    if n > m + 1 { GrantsAdd(l, times, m, n - 1, day); }
  }

  /** The first call from `n` on that is on this day. */
  lemma FirstOnDay(times: seq<real>, n: nat, k: nat) returns (f: nat)
    requires n <= k < |times|
    ensures n <= f <= k && DayOf(times[f]) == DayOf(times[k])
    ensures forall i :: n <= i < f ==> DayOf(times[i]) != DayOf(times[k])
    decreases k - n
  {
    if DayOf(times[n]) == DayOf(times[k]) { f := n; } else { f := FirstOnDay(times, n + 1, k); }
  }

  /** When a day is come back to, some limits grant it more than the daily cap. */
  lemma CapExceeded(times: seq<real>, i: nat, j: nat, k: nat)
    requires i < j < k < |times| && DayOf(times[i]) == DayOf(times[k]) != DayOf(times[j])
    ensures Generous(times).Valid()
    ensures GrantsOnDay(Generous(times), times, |times|, DayOf(times[k])) > MaxInt(0, Generous(times).dailyCap)
  {
    var l, day := Generous(times), DayOf(times[k]);
    var first := FirstOnDay(times, 0, i);
    var back := FirstOnDay(times, j, k);
    GrantedOnReturn(times, first);
    GrantedOnReturn(times, back);
    GrantsAdd(l, times, first, back, day);
    GrantsAdd(l, times, back, |times|, day);
  }

  /** One second is enough: three calls around midnight, the last of them with a clock value one second
      older than the one before, under an ordinary burst and refill. */
  lemma CapNeedsOrder()
    ensures var l, times := Limits(5, 30.0, 1), [86399.0, 86400.0, 86399.0];
      GrantsOnDay(l, times, 3, 0) == 2 && l.dailyCap == 1
  {
    var l, times := Limits(5, 30.0, 1), [86399.0, 86400.0, 86399.0];
    assert DayOf(86399.0) == 0 && DayOf(86400.0) == 1;
    assert times[..0] == [];
    AfterRunStep(l, None, times, 0);
    AfterRunStep(l, None, times, 1);
    assert AfterRun(l, None, times[..1]) == Some(Bucket(4.0, 86399.0, 0, 1));
    assert 1.0 / 30.0 + 4.0 < 5.0;
    assert AfterRun(l, None, times[..2]) == Some(Bucket(3.0 + 1.0 / 30.0, 86400.0, 1, 1));
    assert Granted(l, None, times, 0) && Granted(l, None, times, 2);
    assert GrantsOnDay(l, times, 1, 0) == 1;
    assert GrantsOnDay(l, times, 2, 0) == 1;
  }

  /** The cap is kept on these call times, whatever the limits. */
  ghost predicate CapKept(times: seq<real>) {
    forall l: Limits, n: nat, day: int :: l.Valid() && n <= |times| ==>
      GrantsOnDay(l, times, n, day) <= MaxInt(0, l.dailyCap)
  }

  /** The exact condition on the clock: the daily cap is kept under all limits if and only if no day is
      left and come back to. */
  lemma CapExact(times: seq<real>)
    ensures CapKept(times) <==> DayBlocks(times)
  {
    if DayBlocks(times) {
      forall l: Limits, n: nat, day: int | l.Valid() && n <= |times|
        ensures GrantsOnDay(l, times, n, day) <= MaxInt(0, l.dailyCap)
      {
        CapHolds(l, times, n, day);
      }
    } else {
      var i, j, k :| 0 <= i < j < k < |times| && DayOf(times[i]) == DayOf(times[k]) != DayOf(times[j]);
      CapExceeded(times, i, j, k);
    }
  }

  /** With an ordered clock and a non-negative capacity the tokens stay within `[0, capacity]`. */
  lemma {:induction false} TokensInRange(l: Limits, times: seq<real>, n: nat)
    requires l.Valid() && l.capacity >= 0 && Ordered(times) && 0 < n <= |times|
    ensures AfterRun(l, None, times[..n]).Some?
    ensures var end := AfterRun(l, None, times[..n]).value;
      end.last == times[n - 1] && 0.0 <= end.tokens <= l.capacity as real
  {
    AfterRunStep(l, None, times, n - 1);
    if n > 1 {
      TokensInRange(l, times, n - 1);
      DivMonotone(0.0, times[n - 1] - times[n - 2], l.refillSeconds);
    }
    assert 0.0 / l.refillSeconds == 0.0;
  }

  // ---------------------------------------------------------------- refused calls are invisible

  datatype Call = Call(key: Bytes, now: real)

  predicate OrderedCalls(calls: seq<Call>, from: real) {
    calls == [] || (from <= calls[0].now && OrderedCalls(calls[1..], calls[0].now))
  }

  function Charge(l: Limits, m: Buckets, call: Call): Buckets
    requires l.Valid()
  {
    m[call.key := After(l, Get(m, call.key), call.now)]
  }

  /** The answers that the calls on one key get in a run over all keys. */
  function AnswersFor(l: Limits, m: Buckets, calls: seq<Call>, key: Bytes): seq<Answer>
    requires l.Valid()
    decreases |calls|
  {
    if calls == [] then []
    else
      (if calls[0].key == key then [Ask(l, Get(m, key), calls[0].now)] else [])
      + AnswersFor(l, Charge(l, m, calls[0]), calls[1..], key)
  }

  /** The same, for the calls that a mask keeps. */
  function KeptAnswersFor(l: Limits, m: Buckets, calls: seq<Call>, keep: seq<bool>, key: Bytes): seq<Answer>
    requires l.Valid() && |keep| == |calls|
    decreases |calls|
  {
    if calls == [] then []
    else
      (if keep[0] && calls[0].key == key then [Ask(l, Get(m, key), calls[0].now)] else [])
      + KeptAnswersFor(l, Charge(l, m, calls[0]), calls[1..], keep[1..], key)
  }

  function Kept(calls: seq<Call>, keep: seq<bool>): seq<Call>
    requires |keep| == |calls|
  {
    if calls == [] then [] else (if keep[0] then [calls[0]] else []) + Kept(calls[1..], keep[1..])
  }

  /** The mask drops, of the calls on `key`, only refused ones. */
  predicate DropsRefusedOnly(l: Limits, m: Buckets, calls: seq<Call>, keep: seq<bool>, key: Bytes)
    requires l.Valid() && |keep| == |calls|
    decreases |calls|
  {
    calls == []
    || ((keep[0] || calls[0].key != key || !Allowed(l, Get(m, key), calls[0].now))
        && DropsRefusedOnly(l, Charge(l, m, calls[0]), calls[1..], keep[1..], key))
  }

  /** Two states of a bucket that no call from `from` on can tell apart. */
  ghost predicate Alike(l: Limits, a: Option<Bucket>, b: Option<Bucket>, from: real)
    requires l.Valid()
  {
    forall t :: from <= t ==> Refreshed(l, a, t) == Refreshed(l, b, t)
  }

  lemma Min3(cap: real, x: real, y: real)
    requires y >= 0.0
    ensures Min(cap, Min(cap, x) + y) == Min(cap, x + y)
  {
  }

  /** Refreshing in two stages is refreshing once. */
  lemma RefreshTwice(l: Limits, b: Option<Bucket>, now: real, t: real)
    requires l.Valid() && now <= t
    ensures Refreshed(l, Some(Refreshed(l, b, now)), t) == Refreshed(l, b, t)
      || (b.Some? && DayOf(t) == b.value.day != DayOf(now))
  {
    var r, cap := l.refillSeconds, l.capacity as real;
    DivMonotone(0.0, t - now, r);
    assert 0.0 / r == 0.0;
    if b.Some? {
      DivAdd(now - b.value.last, t - now, r);
      Min3(cap, b.value.tokens + (now - b.value.last) / r, (t - now) / r);
    }
  }

  /** The bucket has not seen a later day than `from`. */
  predicate NotAhead(b: Option<Bucket>, from: real) {
    b.Some? ==> b.value.day <= DayOf(from)
  }

  /** A refused call changes nothing that a later call can see. */
  lemma RefusalInvisible(l: Limits, b: Option<Bucket>, now: real)
    requires l.Valid() && NotAhead(b, now) && !Allowed(l, b, now)
    ensures Alike(l, Some(After(l, b, now)), b, now)
  {
    forall t | now <= t
      ensures Refreshed(l, Some(After(l, b, now)), t) == Refreshed(l, b, t)
    {
      RefreshTwice(l, b, now, t);
      DayMonotone(now, t);
    }
  }

  lemma AlikeStep(l: Limits, a: Option<Bucket>, b: Option<Bucket>, from: real, now: real)
    requires l.Valid() && Alike(l, a, b, from) && from <= now
    ensures Ask(l, a, now) == Ask(l, b, now) && After(l, a, now) == After(l, b, now)
  {
    assert Refreshed(l, a, now) == Refreshed(l, b, now);
  }

  /** Deleting refused calls of a key, and any calls of other keys, from a run with an ordered clock
      changes no remaining answer to that key. */
  lemma {:induction false} RefusedCallsInvisible(l: Limits, m: Buckets, m': Buckets, calls: seq<Call>, keep: seq<bool>,
                                                 key: Bytes, from: real)
    requires l.Valid() && |keep| == |calls| && OrderedCalls(calls, from)
    requires NotAhead(Get(m, key), from) && Alike(l, Get(m, key), Get(m', key), from)
    requires DropsRefusedOnly(l, m, calls, keep, key)
    ensures KeptAnswersFor(l, m, calls, keep, key) == AnswersFor(l, m', Kept(calls, keep), key)
    decreases |calls|
  {
    if calls != [] {
      var call := calls[0];
      var rest := Kept(calls[1..], keep[1..]);
      var next := Charge(l, m, call);
      var next' := if keep[0] then Charge(l, m', call) else m';
      DayMonotone(from, call.now);
      if call.key == key {
        if keep[0] {
          AlikeStep(l, Get(m, key), Get(m', key), from, call.now);
        } else {
          RefusalInvisible(l, Get(m, key), call.now);
        }
      }
      RefusedCallsInvisible(l, next, next', calls[1..], keep[1..], key, call.now);
      if keep[0] {
        assert ([call] + rest)[1..] == rest;
      } else {
        assert [] + rest == rest;
      }
    }
  }

  // ---------------------------------------------------------------- bursts

  /** How many of `i` calls at one moment are granted to a new key: as many as capacity and cap allow. */
  function BurstSize(l: Limits, i: nat): nat {
    var room := if l.capacity < l.dailyCap then l.capacity else l.dailyCap;
    if room <= 0 then 0 else if i < room then i else room
  }

  lemma {:induction false} BurstState(l: Limits, now: real, times: seq<real>, i: nat)
    requires l.Valid() && i <= |times| && forall j :: 0 <= j < |times| ==> times[j] == now
    ensures var s := Refreshed(l, AfterRun(l, None, times[..i]), now);
      && s.tokens == l.capacity as real - BurstSize(l, i) as real && s.dayCount == BurstSize(l, i)
  {
    assert (now - now) / l.refillSeconds == 0.0;
    if i == 0 {
      assert times[..0] == [];
    } else {
      BurstState(l, now, times, i - 1);
      AfterRunStep(l, None, times, i - 1);
    }
  }

  /** A new key starts with a full bucket: of any number of calls at one moment exactly the first are granted,
      as many as capacity and daily cap allow. */
  lemma BurstExact(l: Limits, now: real, times: seq<real>, i: nat)
    requires l.Valid() && i < |times| && forall j :: 0 <= j < |times| ==> times[j] == now
    ensures Granted(l, None, times, i) <==> i < l.capacity && i < l.dailyCap
  {
    BurstState(l, now, times, i);
  }

  // ---------------------------------------------------------------- waits

  /** A refusal for lack of tokens names the exact wait: a call after that many seconds is granted,
      and after no smaller positive whole number of seconds. */
  lemma TokenWaitExact(l: Limits, b: Option<Bucket>, now: real, wait: int)
    requires l.Valid() && l.capacity >= 1 && l.dailyCap >= 1
    requires Refreshed(l, b, now).dayCount < l.dailyCap && !Allowed(l, b, now)
    requires 1 <= wait <= Ask(l, b, now).retryAfter
    ensures Allowed(l, Some(After(l, b, now)), now + wait as real) <==> wait == Ask(l, b, now).retryAfter
  {
    var s := Refreshed(l, b, now);
    var r, need := l.refillSeconds, (1.0 - s.tokens) * l.refillSeconds;
    var gain := wait as real / r;
    assert gain * r == wait as real;
    assert s == After(l, b, now) && s.last == now;
    assert (now + wait as real) - s.last == wait as real;
    assert Ceil(need) as real >= need && (Ceil(need) - 1) as real < need;
    TokenGain(s.tokens, gain, r, wait as real);
  }

  lemma TokenGain(tokens: real, gain: real, r: real, wait: real)
    requires r > 0.0 && gain * r == wait
    ensures tokens + gain >= 1.0 <==> wait >= (1.0 - tokens) * r
  {
    var x := tokens + gain - 1.0;
    assert x * r == wait - (1.0 - tokens) * r;
    SameSign(x, r);
  }

  lemma SameSign(x: real, r: real)
    requires r > 0.0
    ensures x * r >= 0.0 <==> x >= 0.0
  {
    if x < 0.0 { PositiveProduct(-x, r); }
  }

  lemma PositiveProduct(x: real, r: real)
    requires x > 0.0 && r > 0.0
    ensures x * r > 0.0
  {
  }

  /** The time left until the next day begins. */
  function UntilMidnight(now: real): real {
    (DayOf(now) + 1) as real * DAY - now
  }

  /** A refusal by the daily cap names a wait that reaches the next day exactly when the time left is
      a whole number of seconds or less than one second. On a whole-second clock it always is, and the
      wait then ends exactly at midnight. */
  lemma CapWaitExact(l: Limits, b: Option<Bucket>, now: real)
    requires l.Valid() && Refreshed(l, b, now).dayCount >= l.dailyCap
    ensures var later := now + Ask(l, b, now).retryAfter as real;
      var left := UntilMidnight(now);
      && left > 0.0
      && (DayOf(later) > DayOf(now) <==> left == left.Floor as real || left < 1.0)
      && (now == now.Floor as real ==> later == (DayOf(now) + 1) as real * DAY && DayOf(later) == DayOf(now) + 1)
  {
    var left := UntilMidnight(now);
    var later := now + Ask(l, b, now).retryAfter as real;
    DayBounds(now);
    DayBounds(later);
    var midnight := (DayOf(now) + 1) as real * DAY;
    if later >= midnight { DayMonotone(midnight, later); DayStart(DayOf(now) + 1); }
    if now == now.Floor as real {
      WholeSeconds(now);
      DayStart(DayOf(now) + 1);
    }
  }

  lemma WholeSeconds(now: real)
    requires now == now.Floor as real
    ensures UntilMidnight(now) == UntilMidnight(now).Floor as real && UntilMidnight(now) >= 1.0
  {
    DayBounds(now);
    var whole: int := (DayOf(now) + 1) * 86400 - now.Floor;
    assert UntilMidnight(now) == whole as real;
  }

  lemma DayBounds(now: real)
    ensures DayOf(now) as real * DAY <= now < (DayOf(now) + 1) as real * DAY
  {
    var q := now / DAY;
    assert q.Floor as real <= q < q.Floor as real + 1.0;
  }

  lemma DayStart(day: int)
    ensures DayOf(day as real * DAY) == day
  {
    assert day as real * DAY / DAY == day as real;
  }

  /** Once the day has changed, the cap does not refuse. */
  lemma NewDayClearsCap(l: Limits, b: Option<Bucket>, now: real, later: real)
    requires l.Valid() && l.dailyCap >= 1 && DayOf(later) != DayOf(now)
    ensures Refreshed(l, Some(After(l, b, now)), later).dayCount < l.dailyCap
  {
  }
}
